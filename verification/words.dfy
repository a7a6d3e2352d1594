/**
  Machine integers of the 32-bit x86 target. Dafny integers are unbounded, so
  the C conversions between `int`, `unsigned` and `uint32_t` (two's complement,
  wrap-around) are written out here.
 */
module Words {

  const WORD_MOD: int := 0x1_0000_0000
  const INT_MIN: int := -0x8000_0000
  const INT_MAX: int := 0x7fff_ffff

  /** A `uint32_t`: register contents, addresses and stack words. */
  type Word = w: int | 0 <= w < 0x1_0000_0000

  /** A `uint8_t`. */
  type Byte = b: int | 0 <= b < 0x100

  predicate IsInt32(i: int) {
    INT_MIN <= i <= INT_MAX
  }

  /** The conversion of a C integer to `uint32_t`: reduction modulo 2^32. */
  function ToWord(i: int): (w: Word)
    ensures (i - w) % WORD_MOD == 0
    ensures 0 <= i < WORD_MOD ==> w == i
  {
    i % WORD_MOD
  }

  /** The conversion of a `uint32_t` to `int` (two's complement). */
  function Signed(w: Word): (i: int)
    ensures IsInt32(i)
    ensures ToWord(i) == w
    ensures i < 0 <==> w > INT_MAX
  {
    if w <= INT_MAX then w else w - WORD_MOD
  }

  /** Pointer arithmetic on 32-bit addresses: `a + k`, wrapping at 2^32. */
  function AddrAdd(a: Word, k: int): (r: Word)
    ensures (a + k - r) % WORD_MOD == 0
  {
    ToWord(a + k)
  }

  /** How far `x` lies above `a`, going upward and wrapping at 2^32. */
  function Offset(a: Word, x: Word): (d: nat)
    ensures d < WORD_MOD
    ensures AddrAdd(a, d) == x
  {
    (x - a) % WORD_MOD
  }

  /** Adding an offset below 2^32 and measuring it again gives the offset back. */
  lemma OffsetOfAdd(a: Word, k: nat)
    requires k < WORD_MOD
    ensures Offset(a, AddrAdd(a, k)) == k
  {
    if a + k < WORD_MOD {
      assert AddrAdd(a, k) == a + k;
    } else {
      assert AddrAdd(a, k) == a + k - WORD_MOD;
      assert AddrAdd(a, k) - a == k - WORD_MOD;
    }
  }
}
