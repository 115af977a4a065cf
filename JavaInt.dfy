/** Java's 32-bit two's-complement `int`: its range and the wrap-around of
    its addition, which `IntStream.sum` inherits. */
module JavaInt {

  const MinValue: int := -0x8000_0000
  const MaxValue: int := 0x7fff_ffff
  const Modulus: int := 0x1_0000_0000

  /** The values a Java `int` can hold. */
  type Int32 = x: int | MinValue <= x <= MaxValue

  /** The `int` that Java arithmetic yields for the mathematical value `x`:
      the unique value in range congruent to `x` modulo 2^32. */
  function Wrap(x: int): (r: Int32)
    ensures (x - r) % Modulus == 0
  {
    (x - MinValue) % Modulus + MinValue
  }

  /** At most one value in range is congruent to a given integer. */
  lemma CongruentInRangeUnique(x: int, r1: Int32, r2: Int32)
    requires (x - r1) % Modulus == 0 && (x - r2) % Modulus == 0
    ensures r1 == r2
  {
  }

  /** A value already in range is left alone. */
  lemma WrapInRange(x: Int32)
    ensures Wrap(x) == x
  {
    CongruentInRangeUnique(x, Wrap(x), x);
  }

  /** Wrapping after every addition gives the same `int` as wrapping once at
      the end: the running sum of an `IntStream` is the wrapped true sum. */
  lemma WrapAdd(a: int, b: int)
    ensures Wrap(Wrap(a) + b) == Wrap(a + b)
  {
    var w := Wrap(a);
    assert (a + b - Wrap(w + b)) % Modulus == 0 by {
      assert (a - w) % Modulus == 0;
      assert (w + b - Wrap(w + b)) % Modulus == 0;
    }
    CongruentInRangeUnique(a + b, Wrap(w + b), Wrap(a + b));
  }
}
