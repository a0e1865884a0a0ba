/**
 * The sentinel-width discrepancy on a concrete input: the 256 chars 0, 1,
 * ..., 255 in order. No pair of them repeats, so every pass of compress
 * matches one char and adds one two-char entry; the 255 additions fill the
 * 9-bit codebook exactly (next code 512 == L) with W still 9, and the
 * sentinel goes out at 9 bits while expand has widened to 10.
 */
module Findings {
  import opened Common
  import opened Encoding
  import opened Decoding
  import opened RoundTrip

  /** The chars 0, 1, ..., 255. */
  function Ascending(): (s: seq<Byte>)
    ensures |s| == R && forall j :: 0 <= j < R ==> s[j] == j
  {
    seq(R, j requires 0 <= j < R => j as Byte)
  }

  /**
   * The encoder after the first k chars of Ascending(): W = 9, next code
   * 257 + k, and besides the one-char strings only two-char entries that
   * start with a char below k.
   */
  ghost predicate AscendingState(e: EncState, k: int)
  {
    EncInv(e) && e.width == MinWidth && e.next == R + 1 + k &&
    forall s :: s in e.book ==> |s| == 1 || (|s| == 2 && s[0] < k)
  }

  /** One pass on the suffix starting at char k: a one-char match, and the state for k + 1. */
  lemma AscendingStep(e: EncState, k: int, mode: Mode)
    requires mode != Monitor && 0 <= k < R - 1 && AscendingState(e, k)
    ensures var st := EncStep(e, Ascending()[k..], mode);
            st.rest == Ascending()[k + 1..] && AscendingState(st.after, k + 1) && !Saturated(e)
  {
    var input := Ascending()[k..];
    var st := EncStep(e, input, mode);
    assert st.matched == input[..|st.matched|];
    assert |st.matched| == 1;
    assert st.rest == Ascending()[k + 1..];
    Pow2Range(MinWidth);
    assert input[..2] == [k as Byte, (k + 1) as Byte];
  }

  /**
   * From the state after k chars, the rest of Ascending() ends with next
   * code 512 at W = 9, never touching the full-codebook policy.
   */
  lemma {:induction false} AscendingRun(e: EncState, k: int, mode: Mode)
    requires mode != Monitor && 0 <= k < R && AscendingState(e, k)
    ensures Steps(e, Ascending()[k..], mode).final.next == 512
    ensures Steps(e, Ascending()[k..], mode).final.width == MinWidth
    ensures NoSaturation(e, Ascending()[k..], mode)
    decreases R - k
  {
    var input := Ascending()[k..];
    var st := EncStep(e, input, mode);
    if k == R - 1 {
      assert st.matched == input[..|st.matched|];
      assert st.rest == [];
    } else {
      AscendingStep(e, k, mode);
      AscendingRun(st.after, k + 1, mode);
    }
  }

  /**
   * compress as written, on Ascending(): its codebook ends exactly full at
   * 9 bits, so expand widens to 10 bits before the sentinel, which was
   * written at 9, and the stream is misread.
   */
  lemma SentinelMisread(mode: Mode)
    requires mode != Monitor
    ensures FinalState(Ascending(), mode).next == Pow2(MinWidth)
    ensures EndsOnTransition(FinalState(Ascending(), mode), mode)
    ensures Decode(Encode(Ascending(), mode), mode) == Err(Misframed)
  {
    Pow2Range(MinWidth);
    SeedBookShape();
    assert Ascending()[0..] == Ascending();
    AscendingRun(Start(), 0, mode);
    ExpandOfCompress(Ascending(), mode);
  }

  /** The corrected compress reads back on the same input. */
  lemma SentinelCorrected(mode: Mode)
    requires mode != Monitor
    ensures Decode(EncodeCorrected(Ascending(), mode), mode) == Ok(Ascending())
  {
    assert Ascending()[0..] == Ascending();
    SeedBookShape();
    AscendingRun(Start(), 0, mode);
    CorrectedRoundTrip(Ascending(), mode);
  }
}
