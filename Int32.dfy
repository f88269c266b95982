/** Java's `int`: 32-bit two's-complement integers whose `+`, `-` and `*`
    keep only the low-order 32 bits of the mathematical result
    (Java Language Specification, sections 15.18.2 and 15.17.1). */
module JavaInt {

  const TWO_32: int := 0x1_0000_0000
  const MIN_INT: int := -0x8000_0000
  const MAX_INT: int := 0x7fff_ffff

  newtype int32 = x: int | -0x8000_0000 <= x < 0x8000_0000

  /** The `int` value Java produces for the mathematical result `x`:
      the one 32-bit value congruent to `x` modulo 2^32. */
  function Wrap32(x: int): (r: int32)
    ensures (r as int - x) % TWO_32 == 0
    ensures MIN_INT <= x <= MAX_INT ==> r as int == x
  {
    var low := (x - MIN_INT) % TWO_32;
    assert (low - (x - MIN_INT)) % TWO_32 == 0;
    (low + MIN_INT) as int32
  }

  /** Two 32-bit values that agree modulo 2^32 are equal. */
  lemma CongruentInt32Equal(a: int32, b: int32)
    requires (a as int - b as int) % TWO_32 == 0
    ensures a == b
  {
    var d := a as int - b as int;
    assert -TWO_32 < d < TWO_32;
    var q := d / TWO_32;
    assert d == q * TWO_32;
    assert q == 0;
  }

  /** Wrap32 is determined by its contract: any 32-bit value congruent
      to `x` modulo 2^32 is the wrapped value of `x`. */
  lemma Wrap32Unique(x: int, y: int32)
    requires (y as int - x) % TWO_32 == 0
    ensures y == Wrap32(x)
  {
    var r := Wrap32(x);
    assert (y as int - r as int) % TWO_32 == 0 by {
      var p := (y as int - x) / TWO_32;
      var q := (r as int - x) / TWO_32;
      assert y as int - r as int == (p - q) * TWO_32;
    }
    CongruentInt32Equal(y, r);
  }

  /** The identities the simplifier relies on hold under wrap-around:
      x + 0 and x * 1 give x, x * 0 and x - x give 0. */
  lemma WrapIdentities(x: int32)
    ensures Wrap32(x as int + 0) == x && Wrap32(0 + x as int) == x
    ensures Wrap32(x as int * 1) == x && Wrap32(1 * x as int) == x
    ensures Wrap32(x as int * 0) == 0 && Wrap32(0 * x as int) == 0
    ensures Wrap32(x as int - x as int) == 0
  {
  }
}
