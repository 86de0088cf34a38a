/** Go's 64-bit `int`: the results of `+`, `-` and `*` wrap around into
    [MinInt, MaxInt], the two's-complement range. */
module Int64 {
  import opened GoInt

  const MaxInt: int := 0x7fff_ffff_ffff_ffff
  const MinInt: int := -0x8000_0000_0000_0000

  /** A Go int. */
  type Int = x: int | MinInt <= x <= MaxInt

  /** x reduced into the int range, as Go's arithmetic does. */
  function Wrap(x: int): (r: Int)
    ensures MinInt <= x <= MaxInt ==> r == x
    ensures (x - r) % Pow64 == 0
  {
    var r := (x - MinInt) % Pow64 + MinInt;
    ModUnique(x - MinInt, Pow64, (x - MinInt) / Pow64, r - MinInt);
    r
  }

  /** Adding a multiple of 2^64 does not change the wrapped value. */
  lemma WrapShift(x: int, k: int)
    ensures Wrap(x + k * Pow64) == Wrap(x)
  {
    var q, r := (x - MinInt) / Pow64, (x - MinInt) % Pow64;
    assert x + k * Pow64 - MinInt == Pow64 * (q + k) + r;
    ModUnique(x + k * Pow64 - MinInt, Pow64, q + k, r);
  }

  /** Wrapped values differ from the exact ones by a multiple of 2^64. */
  lemma WrapApart(x: int) returns (k: int)
    ensures Wrap(x) == x + k * Pow64
  {
    k := -((x - MinInt) / Pow64);
  }

  /** Wrapping the running sum at every step wraps the total. */
  lemma WrapAdd(a: int, b: int)
    ensures Wrap(Wrap(a) + b) == Wrap(a + b)
  {
    var k := WrapApart(a);
    assert Wrap(a) + b == (a + b) + k * Pow64;
    WrapShift(a + b, k);
  }

  /** Wrapping the running product at every step wraps the total. */
  lemma WrapMul(a: int, b: int)
    ensures Wrap(Wrap(a) * b) == Wrap(a * b)
  {
    var k := WrapApart(a);
    assert Wrap(a) * b == a * b + (k * b) * Pow64;
    WrapShift(a * b, k * b);
  }
}
