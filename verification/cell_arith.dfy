/** Signed 32-bit cell arithmetic, written out the way the C++ host computes it.

    The interpreter's cells and its `temp` register are 32-bit two's-complement
    integers. Dafny integers are unbounded, so every operation that can leave
    the 32-bit range says explicitly how it comes back: `+`, `-` and `*` wrap
    modulo 2^32, and `|` and `%` follow C++ truncating division (the quotient
    rounds toward zero, the remainder takes the sign of the dividend). Dafny's
    own `/` and `%` are Euclidean, so `Halve` and `Remainder` only apply them
    to non-negative operands; the wrap-arounds, on the other hand, rely on
    Euclidean `%` being exactly the unsigned reduction modulo 2^32. */
module CellArith {

  const TWO_32: int := 0x1_0000_0000
  const MIN32: int := -0x8000_0000
  const MAX32: int := 0x7fff_ffff

  /** A value of a C++ `int32_t` (and of `int` on the host). */
  type Int32 = v: int | -0x8000_0000 <= v < 0x8000_0000

  /** The 32-bit two's-complement value that `v` wraps to. */
  function Wrap(v: int): (r: Int32)
    ensures (r - v) % TWO_32 == 0
    ensures MIN32 <= v <= MAX32 ==> r == v
  {
    (v + 0x8000_0000) % TWO_32 - 0x8000_0000
  }

  /** Two 32-bit values that agree modulo 2^32 are equal: `Wrap` picks the
      one representative of each residue class. */
  lemma WrapUnique(a: Int32, b: Int32)
    requires (a - b) % TWO_32 == 0
    ensures a == b
  {
  }

  /** `++` on a cell: the successor, with MAX32 wrapping to MIN32. */
  function Increment(v: Int32): (r: Int32)
    ensures v < MAX32 ==> r == v + 1
    ensures v == MAX32 ==> r == MIN32
  {
    Wrap(v + 1)
  }

  /** `--` on a cell: the predecessor, with MIN32 wrapping to MAX32. */
  function Decrement(v: Int32): (r: Int32)
    ensures v > MIN32 ==> r == v - 1
    ensures v == MIN32 ==> r == MAX32
  {
    Wrap(v - 1)
  }

  /** `*= 2` on a cell: the low 32 bits of `v << 1`, read back as signed. */
  function Double(v: Int32): (r: Int32)
    ensures (r - 2 * v) % TWO_32 == 0
    ensures MIN32 <= 2 * v <= MAX32 ==> r == 2 * v
  {
    Wrap(2 * v)
  }

  /** The `!` instruction: C++ bitwise `~` on a 32-bit two's-complement value. */
  function Complement(v: Int32): (r: Int32)
    ensures v >= 0 <==> r < 0
  {
    -(v as int) - 1
  }

  /** C++ `v / 2` on a signed value: truncates toward zero. */
  function Halve(v: Int32): (r: Int32)
    ensures 0 <= v ==> 0 <= v - 2 * r <= 1
    ensures v < 0 ==> -1 <= v - 2 * r <= 0
  {
    if v >= 0 then v / 2 else -((-(v as int)) / 2)
  }

  /** C++ `v % 2` on a signed value: the remainder takes the dividend's sign. */
  function Remainder(v: Int32): (r: Int32)
    ensures 0 <= v ==> r == 0 || r == 1
    ensures v < 0 ==> r == 0 || r == -1
  {
    if v >= 0 then v % 2 else -((-(v as int)) % 2)
  }

  /** The C++ guarantee that ties the two together:
      `(v / 2) * 2 + v % 2 == v`. */
  lemma HalveRemainder(v: Int32)
    ensures v == 2 * Halve(v) + Remainder(v)
    ensures Remainder(v) != 0 ==> (Remainder(v) < 0 <==> v < 0)
  {
  }

  lemma IncrementDecrement(v: Int32)
    ensures Decrement(Increment(v)) == v
    ensures Increment(Decrement(v)) == v
  {
  }

  lemma ComplementInvolutive(v: Int32)
    ensures Complement(Complement(v)) == v
  {
  }
}
