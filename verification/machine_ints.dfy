/** Java's fixed-width integers: `long` for ledger and entry ids, `int` for
    the descriptor's reference counter, with the wrap-around that `++` and
    `--` perform on an `int`. */
module MachineInts {

  const TwoTo31: int := 0x8000_0000
  const TwoTo32: int := 0x1_0000_0000
  const TwoTo63: int := 0x8000_0000_0000_0000
  const TwoTo64: int := 0x1_0000_0000_0000_0000

  /** A Java `long`. */
  type Int64 = x: int | -TwoTo63 <= x < TwoTo63

  /** A Java `int`. */
  type Int32 = x: int | -TwoTo31 <= x < TwoTo31

  /** Two's-complement truncation of an unbounded integer to 32 bits, which is
      what Java integer arithmetic on `int` produces. */
  function Wrap32(x: int): (r: Int32)
    ensures (r - x) % TwoTo32 == 0
    ensures -TwoTo31 <= x < TwoTo31 ==> r == x
  {
    (x + TwoTo31) % TwoTo32 - TwoTo31
  }

  /** Wrapping is insensitive to adding a multiple of the modulus, so wrapping
      an intermediate result never changes the final one. */
  lemma {:induction false} Wrap32Congruent(x: int, y: int)
    requires (x - y) % TwoTo32 == 0
    ensures Wrap32(x) == Wrap32(y)
  {
    var k := (x - y) / TwoTo32;
    assert x == y + k * TwoTo32;
    ModShift(y + TwoTo31, k);
  }

  lemma {:induction false} ModShift(a: int, k: int)
    ensures (a + k * TwoTo32) % TwoTo32 == a % TwoTo32
  {
    var q := a / TwoTo32;
    var r := a % TwoTo32;
    assert a == q * TwoTo32 + r;
    assert a + k * TwoTo32 == (q + k) * TwoTo32 + r;
  }

  /** Adding to a wrapped value and wrapping again is the same as adding to the
      unwrapped value and wrapping once. */
  lemma WrapAdd(x: int, d: int)
    ensures Wrap32(Wrap32(x) + d) == Wrap32(x + d)
  {
    Wrap32Congruent(Wrap32(x) + d, x + d);
  }
}
