/**
 * Shared vocabulary of the adaptive-width LZW codec: bytes, the codes written
 * to the stream, the code-width arithmetic, and the full-codebook policy mode
 * chosen on the command line.
 */
module Common {

  /** One input byte; the codec reads its input as chars in [0, 256). */
  type Byte = b: int | 0 <= b < 256

  /** Number of input chars. */
  const R: int := 256

  /** The end-of-stream sentinel: compress writes code R after the data, and expand stops on reading it. */
  const Eof: int := R

  /** Code widths grow from 9 to 16 bits. */
  const MinWidth: int := 9
  const MaxWidth: int := 16

  /** Number of slots of the decoder's table, 2^MaxWidth. */
  const TableSize: int := 65536

  /** A code as handed to the bit writer: the value and the number of bits it is written with. */
  datatype Token = Token(code: int, width: int)

  /** The full-codebook policy selected by the token "n", "r" or "m". */
  datatype Mode = Freeze | Reset | Monitor

  datatype Option<+T> = None | Some(value: T)

  datatype Result<+T, +E> = Ok(value: T) | Err(error: E)

  /** 2^n, standing for the source's (int)Math.pow(2, W). */
  function Pow2(n: nat): (p: nat)
    ensures p >= 1
  {
    if n == 0 then 1 else 2 * Pow2(n - 1)
  }

  lemma {:induction false} Pow2Monotone(m: nat, n: nat)
    requires m < n
    ensures Pow2(m) < Pow2(n)
    decreases n
  {
    if m < n - 1 {
      Pow2Monotone(m, n - 1);
    }
  }

  /** The capacities the codec meets: 2^9 = 512 and 2^16 = 65536, and everything between. */
  lemma Pow2Range(w: int)
    requires MinWidth <= w <= MaxWidth
    ensures 512 <= Pow2(w) <= TableSize
    ensures Pow2(MinWidth) == 512 && Pow2(MaxWidth) == TableSize
  {
    assert Pow2(9) == 512 by {
      assert Pow2(4) == 16;
      assert Pow2(8) == 256;
    }
    assert Pow2(16) == 65536 by {
      assert Pow2(12) == 4096;
    }
    if w > 9 { Pow2Monotone(9, w); }
    if w < 16 { Pow2Monotone(w, 16); }
  }

  /** Bits a code of the given width can hold: the bit writer rejects anything else. */
  predicate Fits(t: Token)
  {
    MinWidth <= t.width <= MaxWidth && 0 <= t.code < Pow2(t.width)
  }

  /** The command-line token of each mode. */
  function ModeToken(m: Mode): string
  {
    match m
    case Freeze => "n"
    case Reset => "r"
    case Monitor => "m"
  }

  /**
   * The check main makes on the mode token before compressing or expanding:
   * anything other than "n", "r" or "m" is refused (None stands for the
   * IllegalArgumentException).
   */
  function ParseMode(token: string): (m: Option<Mode>)
    ensures m.Some? <==> token == "n" || token == "r" || token == "m"
    ensures m.Some? ==> ModeToken(m.value) == token
  {
    if token == "n" then Some(Freeze)
    else if token == "r" then Some(Reset)
    else if token == "m" then Some(Monitor)
    else None
  }

  lemma ParseModeToken(m: Mode)
    ensures ParseMode(ModeToken(m)) == Some(m)
  {
  }

  /** A sequence with a head, followed by more: the head stays first. */
  lemma ConsAppend<T>(x: T, a: seq<T>, b: seq<T>)
    ensures ([x] + a) + b == [x] + (a + b)
    ensures (([x] + a) + b)[0] == x && (([x] + a) + b)[1..] == a + b
  {
    assert ([x] + a) + b == [x] + (a + b);
  }
}
