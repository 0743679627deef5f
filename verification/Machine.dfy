/** Machine words of the i386 target: 32-bit registers seen as unsigned numbers. */
module Machine {
  const TWO_32 := 0x1_0000_0000

  type Word = w: int | 0 <= w < 0x1_0000_0000

  /** The first number too large for an int. */
  const INT_LIMIT := 0x8000_0000

  type Int = i: int | -0x8000_0000 <= i < 0x8000_0000

  /** A 32-bit pattern read as a two's complement number. */
  function Signed32(w: Word): Int {
    if w < INT_LIMIT then w else w - TWO_32
  }

  /** What a 32-bit int keeps of a number: arithmetic wraps around. */
  function ToInt(i: int): Int {
    Signed32(i % TWO_32)
  }

  /** Sign extension to 32 bits of the low 2 * half values of a word. */
  function SignExtend(w: Word, half: Word): Word
    requires half == 0x80 || half == 0x8000
  {
    var low := w % (2 * half);
    if low < half then low else low + TWO_32 - 2 * half
  }

  /** Negation of an int: the least int is its own negation. */
  function Negate32(i: Int): Int {
    if i == -0x8000_0000 then i else -i
  }

  /** Sums and differences of counts and addresses wrap around. */
  function Add32(a: Word, k: nat): (r: Word)
    ensures a + k < TWO_32 ==> r == a + k
    ensures TWO_32 <= a + k < 2 * TWO_32 ==> r == a + k - TWO_32
  {
    (a + k) % TWO_32
  }

  function Sub32(a: Word, b: Word): Word {
    if a < b then a - b + TWO_32 else a - b
  }

  /** One less, on a 32-bit counter. */
  function Decrement(w: Word): Word {
    (w + TWO_32 - 1) % TWO_32
  }

  function Max(a: int, b: int): int {
    if a < b then b else a
  }

  function Min(a: int, b: int): int {
    if a < b then a else b
  }

  /** A run of equal characters; empty when n is not positive. */
  function Fill(c: char, n: int): (s: string)
    ensures |s| == Max(n, 0) && forall i :: 0 <= i < |s| ==> s[i] == c
  {
    if n <= 0 then "" else seq(n, _ => c)
  }

  lemma AppendAssoc<T>(a: seq<T>, b: seq<T>, c: seq<T>)
    ensures a + (b + c) == a + b + c
  {
  }
}
