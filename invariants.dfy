/**
 * Properties of compress's codebook and of the two tables across a run:
 * prefix closure, consecutive code assignment, how W moves, and where the
 * two full-codebook policies leave the decoder.
 */
module Invariants {
  import opened Common
  import opened Encoding
  import opened Decoding
  import opened RoundTrip

  /** Every key longer than one char extends a key by one char. */
  ghost predicate PrefixClosed(book: map<seq<Byte>, int>)
  {
    forall s :: s in book && |s| >= 2 ==> s[..|s| - 1] in book
  }

  /**
   * How W moves over one pass: it stays, grows by exactly one (only when the
   * codebook is full, next code == L), or returns to 9 (only in a reset of
   * mode r at W = 16).
   */
  lemma WidthMoves(e: EncState, input: seq<Byte>, mode: Mode)
    requires EncInv(e) && mode != Monitor && input != []
    ensures var w' := EncStep(e, input, mode).after.width;
            w' == e.width ||
            (w' == e.width + 1 && e.next == Pow2(e.width)) ||
            (w' == MinWidth && mode == Reset && Saturated(e))
  {
    StepGrows(e, input, mode);
  }

  /**
   * Outside a reset, a pass keeps the codebook prefix-closed: the new entry
   * is the match (a key) plus the next char.
   */
  lemma StepKeepsPrefixClosed(e: EncState, input: seq<Byte>, mode: Mode)
    requires EncInv(e) && mode != Monitor && input != [] && PrefixClosed(e.book)
    requires !(mode == Reset && Saturated(e))
    ensures PrefixClosed(EncStep(e, input, mode).after.book)
  {
    var st := EncStep(e, input, mode);
    StepGrows(e, input, mode);
    if st.rest != [] && !Saturated(e) {
      var entry := st.matched + [st.rest[0]];
      assert entry[..|entry| - 1] == st.matched;
    }
  }

  /** In mode n, or in mode r before the codebook saturates, the codebook stays prefix-closed for the whole run. */
  lemma {:induction false} RunKeepsPrefixClosed(e: EncState, input: seq<Byte>, mode: Mode)
    requires EncInv(e) && mode != Monitor && PrefixClosed(e.book)
    requires mode == Freeze || NoSaturation(e, input, mode)
    ensures PrefixClosed(Steps(e, input, mode).final.book)
    decreases |input|
  {
    if input != [] {
      var st := EncStep(e, input, mode);
      if st.rest != [] {
        StepKeepsPrefixClosed(e, input, mode);
      }
      RunKeepsPrefixClosed(st.after, st.rest, mode);
    }
  }

  /**
   * A reset in mode r puts the pending entry (match plus next char) into
   * the fresh one-char codebook; when the match was longer than one char,
   * the entry's own prefix is gone and the codebook is no longer
   * prefix-closed.
   */
  lemma ResetBreaksPrefixClosed(e: EncState, entry: seq<Byte>)
    requires EncInv(e) && Saturated(e) && |entry| >= 3 && entry !in e.book
    ensures !PrefixClosed(Grow(e, entry, Reset).book)
  {
    SeedBookShape();
    var book := Grow(e, entry, Reset).book;
    var p := entry[..|entry| - 1];
    assert entry in book;
    assert |p| >= 2 && p != entry;
    assert p !in book;
  }

  /**
   * Before saturation, codes are handed out consecutively: every pass but
   * the last adds one entry, so the final next code is the starting one
   * plus the number of codes written, minus one.
   */
  lemma {:induction false} CodeCount(e: EncState, input: seq<Byte>, mode: Mode)
    requires EncInv(e) && mode != Monitor && input != [] && NoSaturation(e, input, mode)
    ensures Steps(e, input, mode).final.next == e.next + |Steps(e, input, mode).codes| - 1
    ensures Steps(e, input, mode).final.width >= e.width
    decreases |input|
  {
    var st := EncStep(e, input, mode);
    StepGrows(e, input, mode);
    StepsPass(e, input, mode);
    if st.rest != [] {
      CodeCount(st.after, st.rest, mode);
    }
  }

  /**
   * From the start, before saturation, the final next code is 256 plus the
   * number of data codes; below 16 bits (and always in mode r) the sentinel
   * is misread exactly when that number is 2^W - 256.
   */
  lemma TransitionCount(input: seq<Byte>, mode: Mode)
    requires mode != Monitor && input != [] && NoSaturation(Start(), input, mode)
    ensures FinalState(input, mode).next == R + |Steps(Start(), input, mode).codes|
    ensures var f := FinalState(input, mode);
            f.width < MaxWidth || mode == Reset ==>
              (EndsOnTransition(f, mode) <==> |Steps(Start(), input, mode).codes| == Pow2(f.width) - R)
  {
    CodeCount(Start(), input, mode);
  }

  /**
   * Mode n at W = 16: once i reaches 65535 the decoder stops filling its
   * table, so slot 65535 (the code the encoder assigned last) stays null and
   * code 65535 resolves by the self-reference rule to the current string
   * plus its first char, whatever the encoder stored under it.
   */
  lemma FreezeLeavesLastSlot(d: DecState, entry: seq<Byte>, val: seq<Byte>)
    requires DecInv(d) && d.width == MaxWidth && d.i == TableSize - 1 && entry != [] && val != []
    ensures DecStep(d, entry, Freeze) == d
    ensures Resolve(DecStep(d, entry, Freeze), val, TableSize - 1) == Some(val + [val[0]])
  {
    Pow2Range(MaxWidth);
  }

  /**
   * The encoder side of the same moment: with next code 65535 at W = 16 the
   * encoder does store its entry, under code 65535.
   */
  lemma EncoderFillsLastCode(e: EncState, entry: seq<Byte>, mode: Mode)
    requires EncInv(e) && mode != Monitor && e.width == MaxWidth && e.next == TableSize - 1
    requires |entry| >= 2 && entry !in e.book
    ensures Grow(e, entry, mode).book[entry] == TableSize - 1
  {
    Pow2Range(MaxWidth);
  }
}
