/**
 * compress and expand as the source runs them: the static code width W and
 * capacity L as fields updated in place, the codebook reassigned pass by
 * pass, and the decoder's String[65536] as an array filled slot by slot.
 * Each method is proved to compute the specification function of the same
 * name (Encode, Decode), whose properties are proved beside those.
 */
module Program {
  import opened Common
  import opened Encoding
  import opened Decoding
  import opened RoundTrip

  /** The loop of puts that seeds a codebook with the 256 one-char strings. */
  method SeedCodebook() returns (st: map<seq<Byte>, int>)
    ensures st == SeedBook()
  {
    st := map[];
    var i := 0;
    while i < R
      invariant 0 <= i <= R
      invariant forall s :: s in st <==> |s| == 1 && s[0] < i
      invariant forall s :: s in st ==> st[s] == s[0]
    {
      st := st[[i as Byte] := i];
      forall s | |s| == 1 && s[0] < i + 1 ensures s in st {
        if s[0] == i {
          assert s == [i as Byte];
        }
      }
      i := i + 1;
    }
    SeedBookShape();
  }

  /** A fresh String[65536] with the 256 one-char strings in slots 0..255 and every other slot null. */
  method SeedArray() returns (st: array<Option<seq<Byte>>>)
    ensures fresh(st) && st[..] == SeedTable()
  {
    st := new Option<seq<Byte>>[TableSize](_ => None);
    var i := 0;
    while i < R
      invariant 0 <= i <= R
      invariant forall c :: 0 <= c < i ==> st[c] == Some([c as Byte])
      invariant forall c :: i <= c < TableSize ==> st[c] == None
    {
      st[i] := Some([i as Byte]);
      i := i + 1;
    }
  }

  /** Writing out val in front of what the rest of the run writes. */
  lemma PrependTwice(out: seq<Byte>, val: seq<Byte>, r: Result<seq<Byte>, DecError>)
    ensures Prepend(out, Prepend(val, r)) == Prepend(out + val, r)
  {
    if r.Ok? {
      assert out + (val + r.value) == (out + val) + r.value;
    }
  }

  lemma PrependEmpty(r: Result<seq<Byte>, DecError>)
    ensures Prepend([], r) == r
  {
    if r.Ok? {
      assert [] + r.value == r.value;
    }
  }

  /** The state of one program run: the code width W, its capacity L and the policy mode. */
  class MyLZW {
    var W: int
    var L: int
    var fullCodebook: Mode

    /** L is always 2^W, with W within the codec's 9 to 16 bits. */
    ghost predicate Valid()
      reads this
    {
      MinWidth <= W <= MaxWidth && L == Pow2(W)
    }

    /** The static initialisers W = 9 and L = 512, and the mode main hands over. */
    constructor(mode: Mode)
      ensures Valid() && W == MinWidth && fullCodebook == mode
    {
      Pow2Range(MinWidth);
      W := MinWidth;
      L := 512;
      fullCodebook := mode;
    }

    /**
     * compress: the codes written are those of Encode, and W is left at the
     * width of the encoder's final state.
     */
    method Compress(input: seq<Byte>) returns (out: seq<Token>)
      requires Valid() && W == MinWidth && fullCodebook != Monitor
      modifies this`W, this`L
      ensures Valid() && fullCodebook == old(fullCodebook)
      ensures out == Encode(input, fullCodebook)
      ensures W == FinalState(input, fullCodebook).width
    {
      var st := SeedCodebook();
      var code := R + 1;
      out := MainLoop(st, code, input);
      out := out + [Token(Eof, W)];
    }

    /**
     * The while loop of compress from a codebook st and next code: the codes
     * written are those of Steps, and W ends at the final state's width.
     */
    method MainLoop(st0: map<seq<Byte>, int>, code0: int, input: seq<Byte>) returns (out: seq<Token>)
      requires Valid() && fullCodebook != Monitor && EncInv(EncState(st0, code0, W))
      modifies this`W, this`L
      ensures Valid() && fullCodebook == old(fullCodebook)
      ensures var run := Steps(EncState(st0, code0, old(W)), input, fullCodebook);
              out == run.codes && W == run.final.width
    {
      var mode := fullCodebook;
      var st, code, rest := st0, code0, input;
      out := [];
      ghost var whole := Steps(EncState(st0, code0, W), input, mode);
      ghost var e := EncState(st0, code0, W);
      while |rest| > 0
        invariant Valid() && fullCodebook == mode
        invariant e == EncState(st, code, W) && EncInv(e)
        invariant out + Steps(e, rest, mode).codes == whole.codes
        invariant Steps(e, rest, mode).final == whole.final
        decreases |rest|
      {
        ghost var run := Steps(e, rest, mode);
        ghost var step := EncStep(e, rest, mode);
        ghost var run' := Steps(step.after, step.rest, mode);
        StepsPass(e, rest, mode);
        var token;
        st, code, token, rest := Pass(st, code, rest);
        assert run.codes == [token] + run'.codes;
        AppendAssoc(out, [token], run'.codes);
        out := out + [token];
        e := step.after;
      }
      assert out == whole.codes;
    }

    /**
     * expand: the result is that of Decode. The source writes each string
     * as it goes; here the output is returned whole, or the error that stops
     * the run.
     */
    method Expand(codes: seq<Token>) returns (r: Result<seq<Byte>, DecError>)
      requires Valid() && W == MinWidth && fullCodebook != Monitor
      modifies this`W, this`L
      ensures Valid() && fullCodebook == old(fullCodebook)
      ensures r == Decode(codes, fullCodebook)
    {
      var st := SeedArray();
      var i := R;
      st[i] := Some([]);  // the unused lookahead slot for EOF
      i := i + 1;
      assert DecState(st[..], i, W) == StartDec();
      var first := ReadCode(codes, W);
      if first.Err? {
        return Err(first.error);
      }
      var codeword := first.value;
      Pow2Range(W);
      if codeword == R {
        return Ok([]);
      }
      var val := st[codeword];
      if val.None? {
        return Err(UnknownCode);
      }
      r := ExpandLoop(st, i, val.value, codes[1..]);
    }

    /**
     * The while(true) loop of expand from table st, next slot i and the
     * string val of the code just read: the result is that of DecodeLoop.
     */
    method ExpandLoop(st0: array<Option<seq<Byte>>>, i0: int, val0: seq<Byte>, codes: seq<Token>)
      returns (r: Result<seq<Byte>, DecError>)
      requires Valid() && fullCodebook != Monitor && val0 != []
      requires st0.Length == TableSize && DecInv(DecState(st0[..], i0, W))
      modifies this`W, this`L, st0
      ensures Valid() && fullCodebook == old(fullCodebook)
      ensures r == DecodeLoop(DecState(old(st0[..]), i0, old(W)), val0, codes, fullCodebook)
    {
      var mode := fullCodebook;
      var st, i, val, pos := st0, i0, val0, 0;
      var out := [];
      ghost var whole := DecodeLoop(DecState(st0[..], i0, W), val0, codes, mode);
      assert codes[0..] == codes;
      PrependEmpty(whole);
      while true
        invariant Valid() && fullCodebook == mode
        invariant st == st0 || fresh(st)
        invariant st.Length == TableSize && 0 <= pos <= |codes|
        invariant DecInv(DecState(st[..], i, W)) && val != []
        invariant whole == Prepend(out, DecodeLoop(DecState(st[..], i, W), val, codes[pos..], mode))
        decreases |codes| - pos
      {
        ghost var d := DecState(st[..], i, W);
        ghost var before := out;
        out := out + val;
        var rc := ReadCode(codes[pos..], W);
        if rc.Err? {
          return Err(rc.error);
        }
        var codeword := rc.value;
        Pow2Range(W);
        if codeword == R {
          return Ok(out);
        }
        var s := st[codeword];
        if i == codeword {
          s := Some(val + [val[0]]);  // the self-reference rule
        }
        assert s == Resolve(d, val, codeword);
        if s.None? {
          return Err(UnknownCode);
        }
        DecodeLoopUnfold(d, val, codes[pos..], mode, s.value);
        assert codes[pos..][1..] == codes[pos + 1..];
        PrependTwice(before, val, DecodeLoop(DecStep(d, val + [s.value[0]], mode), s.value, codes[pos + 1..], mode));
        st, i := StoreEntry(st, i, val + [s.value[0]]);
        val := s.value;
        pos := pos + 1;
      }
    }

    /**
     * The three branches after a data code is resolved: fill slot i while
     * i < L - 1; widen W (and L) first when i reaches L - 1 below 16 bits; at
     * 16 bits apply the policy, in mode r a fresh array with the entry at
     * slot 256. Table, next slot and W end as DecStep says.
     */
    method StoreEntry(st: array<Option<seq<Byte>>>, i: int, entry: seq<Byte>)
      returns (st': array<Option<seq<Byte>>>, i': int)
      requires Valid() && fullCodebook != Monitor && entry != []
      requires st.Length == TableSize && DecInv(DecState(st[..], i, W))
      modifies this`W, this`L, st
      ensures Valid() && fullCodebook == old(fullCodebook)
      ensures (st' == st || fresh(st')) && st'.Length == TableSize
      ensures DecState(st'[..], i', W) == DecStep(DecState(old(st[..]), i, old(W)), entry, fullCodebook)
    {
      Pow2Range(W);
      st', i' := st, i;
      if i < L - 1 {
        st[i] := Some(entry);
        i' := i + 1;
      } else if i >= L - 1 && W != MaxWidth {
        W := W + 1;
        L := Pow2(W);
        st[i] := Some(entry);
        i' := i + 1;
      } else if i >= L - 1 && W == MaxWidth {
        if fullCodebook == Freeze {
        } else if fullCodebook == Reset {
          st' := SeedArray();
          i' := R;
          W := MinWidth;
          L := 512;
          st'[i'] := Some(entry);
          i' := i' + 1;
        }
      }
    }

    /**
     * One pass of the main loop: the longest prefix s of the input, its code
     * written at W, the codebook grown, and the input past s; all as EncStep.
     */
    method Pass(st: map<seq<Byte>, int>, code: int, input: seq<Byte>)
      returns (st': map<seq<Byte>, int>, code': int, token: Token, rest: seq<Byte>)
      requires Valid() && fullCodebook != Monitor && EncInv(EncState(st, code, W)) && input != []
      modifies this`W, this`L
      ensures Valid() && fullCodebook == old(fullCodebook)
      ensures var step := EncStep(EncState(st, code, old(W)), input, fullCodebook);
              EncState(st', code', W) == step.after && token == step.token && rest == step.rest
    {
      ghost var e := EncState(st, code, W);
      StepGrows(e, input, fullCodebook);
      PassMatches(e, input, fullCodebook);
      var t := MatchLength(st, input, |input|);
      var s := input[..t];
      token := Token(st[s], W);
      st', code' := st, code;
      if t < |input| {
        st', code' := AddEntry(st, code, input[..t + 1]);
      }
      rest := input[t..];
    }

    /**
     * The three branches after a code is written, for a match shorter than
     * the rest of the input: put the entry at code while code < L; widen W
     * (and L) first when the codebook is full below 16 bits; at 16 bits
     * apply the policy. Codebook, next code and W end as Grow says.
     */
    method AddEntry(st: map<seq<Byte>, int>, code: int, entry: seq<Byte>)
      returns (st': map<seq<Byte>, int>, code': int)
      requires Valid() && fullCodebook != Monitor && EncInv(EncState(st, code, W))
      requires |entry| >= 2 && entry !in st
      modifies this`W, this`L
      ensures Valid() && fullCodebook == old(fullCodebook)
      ensures EncState(st', code', W) == Grow(EncState(st, code, old(W)), entry, fullCodebook)
    {
      ghost var e := EncState(st, code, W);
      st', code' := st, code;
      if code < L {
        st' := st[entry := code];
        code' := code + 1;
      } else if code >= L && W != MaxWidth {
        W := W + 1;
        L := Pow2(W);
        st' := st[entry := code];
        code' := code + 1;
      } else if code >= L && W == MaxWidth {
        if fullCodebook == Freeze {
        } else if fullCodebook == Reset {
          st' := SeedCodebook();
          code' := R + 1;
          W := MinWidth;
          L := 512;
          st' := st'[entry := code'];
          code' := code' + 1;
        }
      }
    }
  }

  /** The loop body's longest prefix and code are the pass's match and token. */
  lemma PassMatches(e: EncState, input: seq<Byte>, mode: Mode)
    requires EncInv(e) && mode != Monitor && input != []
    ensures var t := MatchLength(e.book, input, |input|);
            var st := EncStep(e, input, mode);
            st.matched == input[..t] && st.rest == input[t..] &&
            st.token == Token(e.book[input[..t]], e.width)
  {
  }


  lemma AppendAssoc<T>(a: seq<T>, b: seq<T>, c: seq<T>)
    ensures a + b + c == a + (b + c)
  {
  }
}
