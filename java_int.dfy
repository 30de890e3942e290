/** Java's 32-bit `int`: the type of `Member.money`, of the `money` argument of
    a transfer and of the `money INTEGER` column. Java's `+` and `-` on `int`
    wrap around modulo 2^32; `Wrap` makes that explicit. */
module JavaInt {

  const MinInt: int := -0x8000_0000
  const MaxInt: int := 0x7fff_ffff
  const Modulus: int := 0x1_0000_0000

  type Int32 = x: int | MinInt <= x <= MaxInt

  predicate InRange(x: int) {
    MinInt <= x <= MaxInt
  }

  /** a and b denote the same 32-bit pattern */
  predicate Congruent(a: int, b: int) {
    (a - b) % Modulus == 0
  }

  /** The value Java computes for a mathematical result x of `+` or `-` on two ints. */
  function Wrap(x: int): (r: Int32)
    ensures InRange(x) ==> r == x
    ensures Congruent(r, x)
  {
    var r := (x - MinInt) % Modulus + MinInt;
    assert r - x == -Modulus * ((x - MinInt) / Modulus);
    r
  }

  lemma CongruentSum(a: int, a': int, b: int, b': int)
    requires Congruent(a, a') && Congruent(b, b')
    ensures Congruent(a + b, a' + b')
  {
    var p, q := (a - a') / Modulus, (b - b') / Modulus;
    assert a - a' == p * Modulus;
    assert b - b' == q * Modulus;
    assert (a + b) - (a' + b') == (p + q) * Modulus;
  }
}
