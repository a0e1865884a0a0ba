/**
 * Encoder and decoder side by side: the decoder's table follows the
 * encoder's codebook one entry behind, both read and write each data code at
 * the same width, and expand(compress(B)) gives back B, except when the
 * decoder widens (or, in mode r, resets) on reading the last data code: the
 * encoder, which only grows when more input follows, wrote the sentinel at
 * the old width.
 */
module RoundTrip {
  import opened Common
  import opened Encoding
  import opened Decoding

  /**
   * The width the decoder reads the sentinel with, given the encoder's
   * final state: on the last data code the decoder still widens, or in
   * mode r resets, when its table is full.
   */
  function ExpectedEofWidth(f: EncState, mode: Mode): int
    requires MinWidth <= f.width
  {
    if f.next == Pow2(f.width) then
      (if f.width != MaxWidth then f.width + 1 else if mode == Reset then MinWidth else f.width)
    else f.width
  }

  /**
   * The two sides after the decoder has read the code of val and the
   * encoder has written it and grown its codebook, with the char a next in
   * the input: the encoder's next code is the decoder's i plus one, both use
   * the same width, every entry the decoder has filled holds the encoder's
   * string for that code, and the one entry it still lacks (code i) is val
   * plus a.
   */
  ghost predicate SyncedAt(e: EncState, d: DecState, val: seq<Byte>, a: Byte)
  {
    EncInv(e) && DecInv(d) && val != [] &&
    e.next == d.i + 1 && e.width == d.width &&
    (forall s :: s in e.book && R + 1 <= e.book[s] < e.next - 1 ==> d.table[e.book[s]] == Some(s)) &&
    (forall s :: s in e.book && e.book[s] == e.next - 1 ==> s == val + [a])
  }

  ghost predicate Synced(e: EncState, d: DecState, val: seq<Byte>, rest: seq<Byte>)
  {
    rest != [] && SyncedAt(e, d, val, rest[0])
  }

  /** In step, the decoder resolves the code the encoder writes to the encoder's match. */
  lemma ResolveMatches(e: EncState, d: DecState, val: seq<Byte>, rest: seq<Byte>, mode: Mode)
    requires mode != Monitor && Synced(e, d, val, rest)
    ensures var st := EncStep(e, rest, mode);
            0 <= st.token.code < TableSize && st.token.code != Eof &&
            Resolve(d, val, st.token.code) == Some(st.matched)
  {
    var st := EncStep(e, rest, mode);
    var s, c := st.matched, st.token.code;
    Pow2Range(e.width);
    if c == d.i {
      assert s == val + [rest[0]];
      assert s[0] == rest[0];
    } else if |s| == 1 {
      assert s == [s[0]];
    }
  }

  /** Below saturation, adding x = s + [b] on both sides keeps them in step. */
  lemma AddKeepsSynced(e: EncState, d: DecState, val: seq<Byte>, s: seq<Byte>, b: Byte, mode: Mode)
    requires mode != Monitor && s != [] && SyncedAt(e, d, val, s[0])
    requires s + [b] !in e.book && !Saturated(e)
    ensures SyncedAt(Grow(e, s + [b], mode), DecStep(d, val + [s[0]], mode), s, b)
  {
    var x := s + [b];
    var entry := val + [s[0]];
    var e' := Grow(e, x, mode);
    var d' := DecStep(d, entry, mode);
    Pow2Range(e.width);
    assert e'.book == e.book[x := e.next] && e'.next == e.next + 1;
    assert d'.table == d.table[d.i := Some(entry)] && d'.i == d.i + 1 && d'.width == e'.width;
    forall k | k in e'.book && R + 1 <= e'.book[k] < e'.next - 1
      ensures d'.table[e'.book[k]] == Some(k)
    {
      assert k != x && e'.book[k] == e.book[k];
      if e.book[k] == e.next - 1 {
        assert k == entry;
      }
    }
  }

  /** At saturation in mode r, both sides start over and are in step again. */
  lemma ResetKeepsSynced(e: EncState, d: DecState, val: seq<Byte>, s: seq<Byte>, b: Byte)
    requires s != [] && SyncedAt(e, d, val, s[0])
    requires s + [b] !in e.book && Saturated(e)
    ensures SyncedAt(Grow(e, s + [b], Reset), DecStep(d, val + [s[0]], Reset), s, b)
  {
    var x := s + [b];
    var e' := Grow(e, x, Reset);
    Pow2Range(e.width);
    SeedBookShape();
    assert e' == EncState(SeedBook()[x := R + 1], R + 2, MinWidth);
  }

  /** One encoder step and the matching decoder step keep the two sides in step. */
  lemma StepKeepsSynced(e: EncState, d: DecState, val: seq<Byte>, rest: seq<Byte>, mode: Mode)
    requires mode != Monitor && Synced(e, d, val, rest)
    requires EncStep(e, rest, mode).rest != []
    requires mode == Freeze ==> !Saturated(e)
    ensures var st := EncStep(e, rest, mode);
            Synced(st.after, DecStep(d, val + [st.matched[0]], mode), st.matched, st.rest)
  {
    var st := EncStep(e, rest, mode);
    var s, rest' := st.matched, st.rest;
    StepGrows(e, rest, mode);
    if !Saturated(e) {
      AddKeepsSynced(e, d, val, s, rest'[0], mode);
    } else {
      ResetKeepsSynced(e, d, val, s, rest'[0]);
    }
  }

  /** One pass of expand's loop on a data code it can resolve. */
  lemma DecodeLoopUnfold(d: DecState, val: seq<Byte>, codes: seq<Token>, mode: Mode, s: seq<Byte>)
    requires DecInv(d) && val != [] && mode != Monitor
    requires ReadCode(codes, d.width).Ok? && ReadCode(codes, d.width).value != Eof
    requires Resolve(d, val, ReadCode(codes, d.width).value) == Some(s)
    ensures DecodeLoop(d, val, codes, mode) == Prepend(val, DecodeLoop(DecStep(d, val + [s[0]], mode), s, codes[1..], mode))
  {
  }

  /**
   * After the last data code, the decoder has grown its table as usual and
   * reads the sentinel with the width that growth leaves it with.
   */
  lemma LastCode(e: EncState, d: DecState, val: seq<Byte>, s: seq<Byte>, mode: Mode, w: int)
    requires mode != Monitor && s != [] && SyncedAt(e, d, val, s[0])
    ensures DecodeLoop(DecStep(d, val + [s[0]], mode), s, [Token(Eof, w)], mode) ==
            if w == ExpectedEofWidth(e, mode) then Ok(s) else Err(Misframed)
  {
    Pow2Range(e.width);
    var d' := DecStep(d, val + [s[0]], mode);
    assert d'.width == ExpectedEofWidth(e, mode);
  }

  /**
   * From synchronised states, expand's loop turns the rest of the encoder's
   * codes, closed by a sentinel written at width w, into val followed by the
   * rest of the input exactly when w is the width the decoder reads the
   * sentinel with; otherwise it misreads the sentinel.
   */
  lemma {:induction false} Simulation(e: EncState, d: DecState, val: seq<Byte>, rest: seq<Byte>, mode: Mode, w: int)
    requires mode != Monitor && Synced(e, d, val, rest)
    requires mode == Freeze ==> NoSaturation(e, rest, mode)
    ensures DecodeLoop(d, val, Steps(e, rest, mode).codes + [Token(Eof, w)], mode) ==
            if w == ExpectedEofWidth(Steps(e, rest, mode).final, mode) then Ok(val + rest) else Err(Misframed)
    decreases |rest|
  {
    var st := EncStep(e, rest, mode);
    var run := Steps(st.after, st.rest, mode);
    var codes := Steps(e, rest, mode).codes + [Token(Eof, w)];
    StepsUnfold(e, rest, mode, w);
    ResolveMatches(e, d, val, rest, mode);
    var s := st.matched;
    var d' := DecStep(d, val + [s[0]], mode);
    DecodeLoopUnfold(d, val, codes, mode, s);
    if st.rest == [] {
      StepGrows(e, rest, mode);
      assert s == rest;
      LastCode(e, d, val, s, mode, w);
    } else {
      StepKeepsSynced(e, d, val, rest, mode);
      Simulation(st.after, d', s, st.rest, mode, w);
      assert val + (s + st.rest) == val + rest;
    }
  }

  /**
   * The first pass of compress matches one char (the seed codebook has only
   * one-char strings) and, when input follows, leaves the encoder in step
   * with the decoder that has read its code.
   */
  lemma FirstStep(input: seq<Byte>, mode: Mode)
    requires mode != Monitor && input != []
    ensures var st := EncStep(Start(), input, mode);
            st.matched == [input[0]] && st.token == Token(input[0], MinWidth) &&
            (st.rest == [] ==> st.after == Start()) &&
            (st.rest != [] ==> Synced(st.after, StartDec(), st.matched, st.rest))
  {
    var st := EncStep(Start(), input, mode);
    var s := st.matched;
    SeedBookShape();
    assert s == input[..|s|];
    assert |s| == 1;
    Pow2Range(MinWidth);
    if st.rest != [] {
      var e' := st.after;
      assert input[..2] == s + [st.rest[0]];
      assert e'.book == Start().book[input[..2] := R + 1] && e'.next == R + 2;
    }
  }

  /** expand's first read: a one-char code below 256 is looked up in the seed table. */
  lemma DecodeFirst(codes: seq<Token>, mode: Mode, b: Byte)
    requires mode != Monitor && codes != [] && codes[0] == Token(b, MinWidth)
    ensures Decode(codes, mode) == DecodeLoop(StartDec(), [b], codes[1..], mode)
  {
    Pow2Range(MinWidth);
    assert ReadCode(codes, MinWidth) == Ok(b);
  }

  /** One pass of compress's main loop, taken apart: its code, then the codes of the rest. */
  lemma StepsUnfold(e: EncState, input: seq<Byte>, mode: Mode, w: int)
    requires EncInv(e) && mode != Monitor && input != []
    ensures var st := EncStep(e, input, mode);
            var run := Steps(st.after, st.rest, mode);
            var codes := Steps(e, input, mode).codes + [Token(Eof, w)];
            codes != [] && codes[0] == st.token && codes[1..] == run.codes + [Token(Eof, w)] &&
            Steps(e, input, mode).final == run.final
  {
    var st := EncStep(e, input, mode);
    var run := Steps(st.after, st.rest, mode);
    StepsPass(e, input, mode);
    ConsAppend(st.token, run.codes, [Token(Eof, w)]);
  }

  /**
   * A non-empty input: expand reads back exactly the input when the
   * sentinel after compress's data codes is written at width w equal to
   * the width the decoder then reads with, and misreads it otherwise.
   */
  lemma DecodeNonEmpty(input: seq<Byte>, mode: Mode, w: int)
    requires mode != Monitor && input != []
    requires mode == Freeze ==> NoSaturation(Start(), input, mode)
    ensures var run := Steps(Start(), input, mode);
            Decode(run.codes + [Token(Eof, w)], mode) ==
            if w == ExpectedEofWidth(run.final, mode) then Ok(input) else Err(Misframed)
  {
    var st := EncStep(Start(), input, mode);
    var codes := Steps(Start(), input, mode).codes + [Token(Eof, w)];
    FirstStep(input, mode);
    StepsUnfold(Start(), input, mode, w);
    DecodeFirst(codes, mode, input[0]);
    if st.rest == [] {
      LastCodeFirst(input[0], mode, w);
      assert st.matched == input;
    } else {
      DecodeRest(input, mode, w);
    }
  }

  /** The input goes on after the first match: the simulation takes over from the first code. */
  lemma DecodeRest(input: seq<Byte>, mode: Mode, w: int)
    requires mode != Monitor && input != []
    requires mode == Freeze ==> NoSaturation(Start(), input, mode)
    requires EncStep(Start(), input, mode).rest != []
    ensures var st := EncStep(Start(), input, mode);
            var run := Steps(st.after, st.rest, mode);
            DecodeLoop(StartDec(), [input[0]], run.codes + [Token(Eof, w)], mode) ==
            if w == ExpectedEofWidth(run.final, mode) then Ok(input) else Err(Misframed)
  {
    var st := EncStep(Start(), input, mode);
    FirstStep(input, mode);
    Simulation(st.after, StartDec(), st.matched, st.rest, mode, w);
  }

  /** A one-char input: its code, then the sentinel read at 9 bits. */
  lemma LastCodeFirst(b: Byte, mode: Mode, w: int)
    requires mode != Monitor
    ensures DecodeLoop(StartDec(), [b], [Token(Eof, w)], mode) ==
            if w == ExpectedEofWidth(Start(), mode) then Ok([b]) else Err(Misframed)
  {
    Pow2Range(MinWidth);
  }

  /**
   * The whole stream: expand reads back exactly the input when the sentinel
   * after compress's data codes is written at width w equal to the width
   * the decoder then reads with, and misreads the sentinel otherwise.
   */
  lemma DecodeSteps(input: seq<Byte>, mode: Mode, w: int)
    requires mode != Monitor
    requires mode == Freeze ==> NoSaturation(Start(), input, mode)
    ensures var run := Steps(Start(), input, mode);
            Decode(run.codes + [Token(Eof, w)], mode) ==
            if w == ExpectedEofWidth(run.final, mode) then Ok(input) else Err(Misframed)
  {
    if input == [] {
      Pow2Range(MinWidth);
      assert Steps(Start(), input, mode).codes + [Token(Eof, w)] == [Token(Eof, w)];
    } else {
      DecodeNonEmpty(input, mode, w);
    }
  }

  /** The final state of compress's main loop on input. */
  function FinalState(input: seq<Byte>, mode: Mode): (f: EncState)
    requires mode != Monitor
    ensures EncInv(f)
    ensures Encode(input, mode)[|Encode(input, mode)| - 1] == Token(Eof, f.width)
  {
    Steps(Start(), input, mode).final
  }

  /**
   * Whether the decoder changes width on reading the last data code: the
   * encoder's codebook ends exactly full (next code == L) and the decoder
   * then widens, or resets in mode r.
   */
  predicate EndsOnTransition(f: EncState, mode: Mode)
    requires MinWidth <= f.width
  {
    ExpectedEofWidth(f, mode) != f.width
  }

  /**
   * expand(compress(B)) == B, in mode r for every B and in mode n while the
   * codebook never saturates, unless the run ends on a width transition of
   * the decoder, in which case the sentinel is misread.
   */
  lemma ExpandOfCompress(input: seq<Byte>, mode: Mode)
    requires mode != Monitor
    requires mode == Freeze ==> NoSaturation(Start(), input, mode)
    ensures Decode(Encode(input, mode), mode) ==
            if EndsOnTransition(FinalState(input, mode), mode) then Err(Misframed) else Ok(input)
  {
    DecodeSteps(input, mode, FinalState(input, mode).width);
  }

  /**
   * compress with the sentinel written at the width the decoder expects
   * (the width after the widening or reset that a full codebook calls for).
   */
  function EncodeCorrected(input: seq<Byte>, mode: Mode): (out: seq<Token>)
    requires mode != Monitor
    ensures |out| == |Encode(input, mode)| && out[..|out| - 1] == Encode(input, mode)[..|out| - 1]
    ensures out[|out| - 1].code == Eof
  {
    var run := Steps(Start(), input, mode);
    run.codes + [Token(Eof, ExpectedEofWidth(run.final, mode))]
  }

  /** With the corrected sentinel width, expand(compress(B)) == B. */
  lemma CorrectedRoundTrip(input: seq<Byte>, mode: Mode)
    requires mode != Monitor
    requires mode == Freeze ==> NoSaturation(Start(), input, mode)
    ensures Decode(EncodeCorrected(input, mode), mode) == Ok(input)
  {
    var run := Steps(Start(), input, mode);
    DecodeSteps(input, mode, ExpectedEofWidth(run.final, mode));
  }
}
