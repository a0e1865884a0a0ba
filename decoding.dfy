/**
 * The decoder (expand) as a specification: the 65536-slot string table of the
 * source (None stands for a null slot), the index i of the next slot to fill,
 * and the width W the next code is read with. The decoder fills its table one
 * code behind the encoder and resolves a code equal to i by the LZW
 * self-reference rule.
 */
module Decoding {
  import opened Common

  datatype DecState = DecState(table: seq<Option<seq<Byte>>>, i: int, width: int)

  /** Why expand fails on a stream. */
  datatype DecError =
    | EndOfInput   // the reader runs out of bits
    | Misframed    // the next code was not written with the width the decoder reads it at
    | UnknownCode  // a code that is neither in the table nor the self-reference (a null string)

  /** A fresh table: the 256 one-char strings, every other slot null. */
  function SeedTable(): (t: seq<Option<seq<Byte>>>)
    ensures |t| == TableSize
    ensures forall c :: 0 <= c < R ==> t[c] == Some([c as Byte])
    ensures forall c :: R <= c < TableSize ==> t[c] == None
  {
    seq(TableSize, c requires 0 <= c < TableSize => if c < R then Some([c as Byte]) else None)
  }

  /** The state expand starts from: slot 256 holds the unused "" for EOF, i = 257, W = 9. */
  function StartDec(): (d: DecState)
    ensures DecInv(d)
  {
    Pow2Range(MinWidth);
    DecState(SeedTable()[R := Some([])], R + 1, MinWidth)
  }

  /**
   * The table invariant: W within [9, 16], i within [257, L - 1] (so every
   * write st[i++] stays inside the 65536 slots), the one-char strings in
   * slots 0..255, and no empty string outside slot 256.
   */
  ghost predicate DecInv(d: DecState)
  {
    |d.table| == TableSize &&
    MinWidth <= d.width <= MaxWidth &&
    R + 1 <= d.i < Pow2(d.width) <= TableSize &&
    (forall c :: 0 <= c < R ==> d.table[c] == Some([c as Byte])) &&
    (forall c :: 0 <= c < TableSize && c != R && d.table[c].Some? ==> d.table[c].value != [])
  }

  /** readInt(W) on the code stream. */
  function ReadCode(codes: seq<Token>, w: int): (r: Result<int, DecError>)
    ensures r.Ok? ==> codes != [] && codes[0] == Token(r.value, w) && Fits(codes[0])
    ensures r.Err? ==> codes == [] || codes[0].width != w || !Fits(codes[0])
  {
    if codes == [] then Err(EndOfInput)
    else if codes[0].width != w || !Fits(codes[0]) then Err(Misframed)
    else Ok(codes[0].code)
  }

  /** Filling slot i (below 65536) and moving i on keeps the table invariant at any width that leaves room. */
  lemma StoreKeepsInv(d: DecState, entry: seq<Byte>, w: int)
    requires DecInv(d) && entry != []
    requires MinWidth <= w <= MaxWidth && d.i + 1 < Pow2(w)
    ensures DecInv(DecState(d.table[d.i := Some(entry)], d.i + 1, w))
  {
    Pow2Range(w);
  }

  /** The table mode r starts over with keeps the invariant. */
  lemma ResetKeepsInv(entry: seq<Byte>)
    requires entry != []
    ensures DecInv(DecState(SeedTable()[R := Some(entry)], R + 1, MinWidth))
  {
    Pow2Range(MinWidth);
  }

  /**
   * Adding entry (previous string plus the first char of the current one):
   * at slot i while i < L - 1; at slot i after widening W by one when
   * i reaches L - 1 below 16 bits; and at W = 16 by the policy: nothing in
   * mode n, in mode r a fresh table with the entry parked at slot 256 and
   * i = 257.
   */
  function DecStep(d: DecState, entry: seq<Byte>, mode: Mode): (r: DecState)
    requires DecInv(d) && entry != [] && mode != Monitor
    ensures DecInv(r)
    ensures d.i < Pow2(d.width) - 1 ==>
              r == DecState(d.table[d.i := Some(entry)], d.i + 1, d.width)
    ensures d.i >= Pow2(d.width) - 1 && d.width != MaxWidth ==>
              r == DecState(d.table[d.i := Some(entry)], d.i + 1, d.width + 1)
    ensures d.i >= Pow2(d.width) - 1 && d.width == MaxWidth && mode == Freeze ==> r == d
    ensures d.i >= Pow2(d.width) - 1 && d.width == MaxWidth && mode == Reset ==>
              r == DecState(SeedTable()[R := Some(entry)], R + 1, MinWidth)
  {
    if d.i < Pow2(d.width) - 1 then
      StoreKeepsInv(d, entry, d.width);
      DecState(d.table[d.i := Some(entry)], d.i + 1, d.width)
    else if d.width != MaxWidth then
      assert Pow2(d.width + 1) == 2 * Pow2(d.width);
      StoreKeepsInv(d, entry, d.width + 1);
      DecState(d.table[d.i := Some(entry)], d.i + 1, d.width + 1)
    else if mode == Freeze then
      d
    else
      ResetKeepsInv(entry);
      DecState(SeedTable()[R := Some(entry)], R + 1, MinWidth)
  }

  /** Output written so far in front of the rest of the run's result. */
  function Prepend(out: seq<Byte>, r: Result<seq<Byte>, DecError>): Result<seq<Byte>, DecError>
  {
    match r
    case Ok(rest) => Ok(out + rest)
    case Err(e) => Err(e)
  }

  /** The string a data code stands for: the self-reference rule first, then the table. */
  function Resolve(d: DecState, val: seq<Byte>, c: int): (s: Option<seq<Byte>>)
    requires DecInv(d) && val != [] && 0 <= c < TableSize && c != Eof
    ensures c == d.i ==> s == Some(val + [val[0]])
    ensures c != d.i ==> s == d.table[c]
    ensures s.Some? ==> s.value != []
  {
    if c == d.i then Some(val + [val[0]]) else d.table[c]
  }

  /**
   * The while(true) loop of expand, entered with the string val of the code
   * just read: write val, read the next code, stop at the sentinel,
   * otherwise resolve the code, grow the table and go round with the new
   * string.
   */
  function DecodeLoop(d: DecState, val: seq<Byte>, codes: seq<Token>, mode: Mode): (r: Result<seq<Byte>, DecError>)
    requires DecInv(d) && val != [] && mode != Monitor
    ensures r.Ok? ==> |r.value| >= |val| && r.value[..|val|] == val
    decreases |codes|
  {
    match ReadCode(codes, d.width)
    case Err(e) => Err(e)
    case Ok(c) =>
      Pow2Range(d.width);
      if c == Eof then Ok(val)
      else
        match Resolve(d, val, c)
        case None => Err(UnknownCode)
        case Some(s) =>
          var r := DecodeLoop(DecStep(d, val + [s[0]], mode), s, codes[1..], mode);
          assert r.Ok? ==> (val + r.value)[..|val|] == val;
          Prepend(val, r)
  }

  /** expand: read the first code at 9 bits; the sentinel means empty output. */
  function Decode(codes: seq<Token>, mode: Mode): (r: Result<seq<Byte>, DecError>)
    requires mode != Monitor
    ensures codes == [Token(Eof, MinWidth)] ==> r == Ok([])
  {
    var d := StartDec();
    match ReadCode(codes, d.width)
    case Err(e) => Err(e)
    case Ok(c) =>
      Pow2Range(d.width);
      if c == Eof then Ok([])
      else
        match d.table[c]
        case None => Err(UnknownCode)
        case Some(val) => DecodeLoop(d, val, codes[1..], mode)
  }
}
