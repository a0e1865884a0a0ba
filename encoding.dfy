/**
 * The encoder (compress) as a specification: the codebook is a map from
 * strings to codes (the ternary search trie of the source), and each pass of
 * the main loop emits the code of the longest codebook prefix of the
 * remaining input and grows the codebook by one entry, widening the code or
 * applying the full-codebook policy when the codebook is full.
 */
module Encoding {
  import opened Common

  /** The encoder's state: codebook, next free code and current width W (L is Pow2(width)). */
  datatype EncState = EncState(book: map<seq<Byte>, int>, next: int, width: int)

  /** The data codes written by the main loop and the state it ends in. */
  datatype Run = Run(codes: seq<Token>, final: EncState)

  /** The 256 one-char strings, each coded by its char: the trie the loop of puts seeds. */
  function SeedBook(): (book: map<seq<Byte>, int>)
  {
    map b: Byte | 0 <= b < R :: [b] := b
  }

  lemma SeedBookShape()
    ensures forall s :: s in SeedBook() <==> |s| == 1
    ensures forall s :: s in SeedBook() ==> SeedBook()[s] == s[0]
  {
    forall s | |s| == 1 ensures s in SeedBook() {
      assert s == [s[0]];
    }
  }

  /** The state compress starts from: all 256 one-char strings, next code 257, W = 9. */
  function Start(): (e: EncState)
    ensures EncInv(e)
  {
    StartInv();
    EncState(SeedBook(), R + 1, MinWidth)
  }

  /**
   * The codebook invariant: W within [9, 16], next code within [257, L], all
   * one-char strings coded by their char, every longer entry coded in
   * [257, next), and every code below next.
   */
  ghost predicate EncInv(e: EncState)
  {
    MinWidth <= e.width <= MaxWidth &&
    R + 1 <= e.next <= Pow2(e.width) &&
    (e.width == MinWidth || Pow2(e.width - 1) < e.next) &&
    (forall b: Byte :: [b] in e.book) &&
    (forall s :: s in e.book ==>
       s != [] && e.book[s] < e.next &&
       (|s| == 1 ==> e.book[s] == s[0]) &&
       (|s| != 1 ==> R + 1 <= e.book[s]))
  }

  lemma StartInv()
    ensures EncInv(EncState(SeedBook(), R + 1, MinWidth))
  {
    SeedBookShape();
    Pow2Range(MinWidth);
    forall b: Byte ensures [b] in SeedBook() {
      assert |[b]| == 1 && [b][0] == b;
    }
  }

  /**
   * The length of the longest prefix of input[..n] that is a key of the
   * codebook (0 if none): the trie's longestPrefixOf.
   */
  function MatchLength(book: map<seq<Byte>, int>, input: seq<Byte>, n: nat): (t: nat)
    requires n <= |input|
    ensures t <= n
    ensures t > 0 ==> input[..t] in book
    ensures forall k :: t < k <= n ==> input[..k] !in book
    ensures n > 0 && input[..1] in book ==> t >= 1
  {
    if n == 0 then 0
    else if input[..n] in book then n
    else MatchLength(book, input, n - 1)
  }

  /** Whether growing the codebook in this state hits the full codebook at W = 16. */
  predicate Saturated(e: EncState)
  {
    e.width == MaxWidth && e.next >= Pow2(MaxWidth)
  }

  /**
   * Adding entry (the match plus the next char) after a code is written:
   * at code `next` while it is below L; after widening W by one when the
   * codebook is full below 16 bits; and at W = 16 by the policy: nothing in
   * mode n, in mode r a fresh seed codebook with the entry at 257.
   */
  function Grow(e: EncState, entry: seq<Byte>, mode: Mode): (r: EncState)
    requires EncInv(e) && mode != Monitor
    requires |entry| >= 2 && entry !in e.book
    ensures EncInv(r)
    ensures !Saturated(e) ==> r.book == e.book[entry := e.next] && r.next == e.next + 1
    ensures !Saturated(e) ==> r.width == (if e.next < Pow2(e.width) then e.width else e.width + 1)
    ensures Saturated(e) && mode == Freeze ==> r == e
    ensures Saturated(e) && mode == Reset ==> r == EncState(SeedBook()[entry := R + 1], R + 2, MinWidth)
  {
    Pow2Range(e.width);
    if e.next < Pow2(e.width) then
      EncState(e.book[entry := e.next], e.next + 1, e.width)
    else if e.width != MaxWidth then
      assert Pow2(e.width + 1) == 2 * Pow2(e.width);
      EncState(e.book[entry := e.next], e.next + 1, e.width + 1)
    else if mode == Freeze then
      e
    else
      StartInv();
      EncState(SeedBook()[entry := R + 1], R + 2, MinWidth)
  }

  /** One pass of the main loop: the longest match, its code at the current width, and the state after. */
  datatype Step = Step(matched: seq<Byte>, token: Token, after: EncState, rest: seq<Byte>)

  function EncStep(e: EncState, input: seq<Byte>, mode: Mode): (r: Step)
    requires EncInv(e) && mode != Monitor && input != []
    ensures 1 <= |r.matched| <= |input| && input == r.matched + r.rest
    ensures r.matched in e.book && r.token == Token(e.book[r.matched], e.width)
    ensures forall k :: |r.matched| < k <= |input| ==> input[..k] !in e.book
    ensures Fits(r.token) && r.token.code != Eof
    ensures EncInv(r.after)
  {
    assert input[..1] == [input[0]];
    var t := MatchLength(e.book, input, |input|);
    var s := input[..t];
    Pow2Range(e.width);
    assert input == s + input[t..];
    Step(s, Token(e.book[s], e.width),
         if t < |input| then Grow(e, input[..t + 1], mode) else e,
         input[t..])
  }

  /**
   * The state after a pass: unchanged when the match was the whole input,
   * otherwise the codebook grown by the match plus the next char.
   */
  lemma StepGrows(e: EncState, input: seq<Byte>, mode: Mode)
    requires EncInv(e) && mode != Monitor && input != []
    ensures var st := EncStep(e, input, mode);
            (st.rest == [] ==> st.after == e) &&
            (st.rest != [] ==> st.matched + [st.rest[0]] !in e.book &&
                               st.after == Grow(e, st.matched + [st.rest[0]], mode))
  {
    var st := EncStep(e, input, mode);
    var t := |st.matched|;
    assert st.matched == input[..t];
    if st.rest != [] {
      assert st.matched + [st.rest[0]] == input[..t + 1];
    }
  }

  /** The main loop of compress: codes for the whole input, and the state after the last one. */
  function Steps(e: EncState, input: seq<Byte>, mode: Mode): (r: Run)
    requires EncInv(e) && mode != Monitor
    ensures EncInv(r.final)
    ensures |r.codes| <= |input| && (input != [] ==> |r.codes| >= 1)
    ensures forall k :: 0 <= k < |r.codes| ==> Fits(r.codes[k]) && r.codes[k].code != Eof
    decreases |input|
  {
    if input == [] then Run([], e)
    else
      var st := EncStep(e, input, mode);
      var r := Steps(st.after, st.rest, mode);
      Run([st.token] + r.codes, r.final)
  }

  /** The main loop's run is the pass's code followed by the run from the state after it. */
  lemma StepsPass(e: EncState, input: seq<Byte>, mode: Mode)
    requires EncInv(e) && mode != Monitor && input != []
    ensures var st := EncStep(e, input, mode);
            Steps(e, input, mode) == Run([st.token] + Steps(st.after, st.rest, mode).codes, Steps(st.after, st.rest, mode).final)
  {
  }

  /**
   * Whether the run never reaches the full codebook at W = 16 with more
   * input to come (the only point where the policy is consulted).
   */
  ghost predicate NoSaturation(e: EncState, input: seq<Byte>, mode: Mode)
    requires EncInv(e) && mode != Monitor
    decreases |input|
  {
    input == [] ||
    var st := EncStep(e, input, mode);
    !(Saturated(e) && st.rest != []) && NoSaturation(st.after, st.rest, mode)
  }

  /** compress: the data codes, then the sentinel 256 at the final width. */
  function Encode(input: seq<Byte>, mode: Mode): (out: seq<Token>)
    requires mode != Monitor
    ensures |out| >= 1 && out[|out| - 1].code == Eof && Fits(out[|out| - 1])
    ensures forall k :: 0 <= k < |out| - 1 ==> Fits(out[k]) && out[k].code != Eof
    ensures input == [] ==> out == [Token(Eof, MinWidth)]
  {
    var r := Steps(Start(), input, mode);
    var out := r.codes + [Token(Eof, r.final.width)];
    Pow2Range(r.final.width);
    assert forall k :: 0 <= k < |out| - 1 ==> out[k] == r.codes[k];
    out
  }
}
