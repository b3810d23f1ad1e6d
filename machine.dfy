/**
 * Fixed-width .NET integers and the conversions of `System.Convert` that the
 * modelled code relies on. Dafny integers are unbounded, so every wrap-around
 * of the C# code is written out with these functions.
 */
module Machine {
  import opened Wrappers
  import opened Exceptions

  const TwoTo32: int := 0x1_0000_0000
  const IntMin: int := -0x8000_0000
  const IntMax: int := 0x7fff_ffff

  type byte = x: int | 0 <= x < 0x100
  type uint32 = x: int | 0 <= x < 0x1_0000_0000
  type int32 = x: int | -0x8000_0000 <= x < 0x8000_0000

  /** Unchecked C# `int` arithmetic: the 32-bit two's-complement value congruent to `x`. */
  function WrapInt32(x: int): (r: int32)
    ensures (r - x) % TwoTo32 == 0
    ensures IntMin <= x <= IntMax ==> r == x
  {
    (x + 0x8000_0000) % TwoTo32 - 0x8000_0000
  }

  /** Unchecked C# `uint` arithmetic: the value of `x` modulo 2^32. */
  function WrapUInt32(x: int): (r: uint32)
    ensures (r - x) % TwoTo32 == 0
    ensures 0 <= x < TwoTo32 ==> r == x
  {
    x % TwoTo32
  }

  /** Rounding to the nearest integer, ties to the even neighbour (banker's rounding). */
  function RoundHalfEven(v: real): (r: int)
    ensures -0.5 <= r as real - v <= 0.5
    ensures (r as real - v == 0.5 || r as real - v == -0.5) ==> r % 2 == 0
  {
    var f := v.Floor;
    var d := v - f as real;
    if d < 0.5 then f
    else if d > 0.5 then f + 1
    else if f % 2 == 0 then f
    else f + 1
  }

  /** `Convert.ToInt32(double)`: banker's rounding, OverflowException outside the int range. */
  function ConvertToInt32(v: real): (r: Result<int32, Exception>)
    ensures r.Ok? <==> IntMin <= RoundHalfEven(v) <= IntMax
    ensures r.Ok? ==> r.value == RoundHalfEven(v)
    ensures r.Err? ==> r.error == Overflow
  {
    if -2147483648.5 <= v < 2147483647.5 then Ok(RoundHalfEven(v)) else Err(Overflow)
  }

  /** `Convert.ToUInt32(double)`: banker's rounding, OverflowException outside the uint range. */
  function ConvertToUInt32(v: real): (r: Result<uint32, Exception>)
    ensures r.Ok? <==> 0 <= RoundHalfEven(v) < TwoTo32
    ensures r.Ok? ==> r.value == RoundHalfEven(v)
    ensures r.Err? ==> r.error == Overflow
  {
    if -0.5 <= v < 4294967295.5 then Ok(RoundHalfEven(v)) else Err(Overflow)
  }

  /** A positive multiple of a positive number is at least that number. */
  lemma {:induction false} MulAtLeast(m: int, k: int)
    requires m > 0
    ensures k >= 1 ==> m * k >= m
    decreases if k < 0 then 0 else k
  {
    if k > 1 {
      MulAtLeast(m, k - 1);
      assert m * k == m * (k - 1) + m;
    }
  }

  /** Euclidean remainders are unique. */
  lemma ModUnique(n: int, m: int, d: int, r: int)
    requires m > 0 && 0 <= r < m && n == m * d + r
    ensures n % m == r && n / m == d
  {
    var d', r' := n / m, n % m;
    assert m * d' + r' == n;
    assert m * (d - d') == r' - r;
    MulAtLeast(m, d - d');
    MulAtLeast(m, d' - d);
  }

  /** Adding a multiple of the modulus does not change the remainder. */
  lemma ModShift(x: int, q: int, m: int)
    requires m > 0
    ensures (x + q * m) % m == x % m
  {
    ModUnique(x + q * m, m, x / m + q, x % m);
  }

  /** Reducing a summand first does not change the remainder of a sum. */
  lemma ModAdd(a: int, b: int, m: int)
    requires m > 0
    ensures (a % m + b) % m == (a + b) % m
  {
    ModShift(a % m + b, a / m, m);
  }

  /** Wrapping before or after adding one gives the same `int`. */
  lemma WrapInt32Succ(x: int)
    ensures WrapInt32(WrapInt32(x) + 1) == WrapInt32(x + 1)
  {
    var q := (x + 0x8000_0000) / TwoTo32;
    assert WrapInt32(x) == x - q * TwoTo32;
    ModShift(x + 1 + 0x8000_0000, -q, TwoTo32);
  }
}
