/** Machine types of the Go code that the other modules share. */
module GoBase {

  /** Go's `uint8`: an unsigned 8-bit integer. */
  type uint8 = x: int | 0 <= x < 256

  /** Go's `byte`, an alias of `uint8`. */
  type byte = uint8

  const TwoTo63: int := 0x8000_0000_0000_0000
  const TwoTo64: int := 0x1_0000_0000_0000_0000

  /** Whether x is a value of Go's 64-bit `int`. */
  predicate IsInt64(x: int) {
    -TwoTo63 <= x < TwoTo63
  }

  /** The 64-bit pattern of u (its low 64 bits) read as a two's-complement `int`. */
  function ToInt64(u: int): (r: int)
    ensures IsInt64(r)
    ensures 0 <= u < TwoTo64 ==> r == (if u < TwoTo63 then u else u - TwoTo64)
  {
    var w := u % TwoTo64;
    if w < TwoTo63 then w else w - TwoTo64
  }

  /** 2^e. */
  function Pow2(e: nat): (p: nat)
    ensures p >= 1
  {
    if e == 0 then 1 else 2 * Pow2(e - 1)
  }

  /** Go's `x << s` on a 64-bit integer, as its unsigned bit pattern: the bits
      shifted past bit 63 are lost, and a shift of 64 or more yields 0. */
  function Shl64(x: nat, s: nat): nat {
    if s >= 64 then 0 else (x * Pow2(s)) % TwoTo64
  }

  /** Go's bitwise `x | y` on the unsigned bit patterns x and y. */
  function Or(x: nat, y: nat): nat
    decreases x + y
  {
    if x == 0 then y
    else if y == 0 then x
    else 2 * Or(x / 2, y / 2) + (if x % 2 == 1 || y % 2 == 1 then 1 else 0)
  }

  /** OR of a multiple of 2^k with a value below 2^k has no bits in common to
      merge: it is their sum. */
  lemma {:induction false} OrDisjoint(x: nat, k: nat, y: nat)
    requires y < Pow2(k)
    ensures Or(x * Pow2(k), y) == x * Pow2(k) + y
    decreases k
  {
    var hi := x * Pow2(k);
    if k > 0 && hi != 0 && y != 0 {
      var half := x * Pow2(k - 1);
      assert hi == 2 * half;
      assert hi / 2 == half && hi % 2 == 0;
      OrDisjoint(x, k - 1, y / 2);
      assert Or(hi, y) == 2 * (half + y / 2) + y % 2;
    }
  }

  /** A Go pair `(value, error)`: either a value with a nil error, or an error. */
  datatype Result<T> = Success(value: T) | Failure(error: string)
}
