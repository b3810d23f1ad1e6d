/**
 * Factorials and binomial coefficients in unsigned 32-bit arithmetic, as the
 * binomial random variable was meant to use them. Every product wraps modulo
 * 2^32, so the results are exact only for small arguments.
 */
module Maths {
  import opened Wrappers
  import opened Exceptions
  import opened Machine

  /** The mathematical factorial. */
  function TrueFactorial(n: nat): (f: nat)
    ensures f >= 1
  {
    if n == 0 then 1 else n * TrueFactorial(n - 1)
  }

  /** Multiplying by a reduced factor gives the same remainder. */
  lemma ModMulRight(a: int, b: int, m: int)
    requires m > 0
    ensures (a * (b % m)) % m == (a * b) % m
  {
    assert a * b == a * (b % m) + (a * (b / m)) * m by {
      assert b == (b / m) * m + b % m;
    }
    ModShift(a * (b % m), a * (b / m), m);
  }

  /** `Maths.Factorial`: recursive, with every product wrapping modulo 2^32. */
  function Factorial(x: uint32): (r: uint32)
    ensures r == TrueFactorial(x) % TwoTo32
  {
    if x == 0 then 1
    else if x == 1 then 1
    else
      var f := Factorial(x - 1);
      ModMulRight(x, TrueFactorial(x - 1), TwoTo32);
      WrapUInt32(x * f)
  }

  /**
   * `Maths.Combinations`: `n! / (r! * (n - r)!)` in `uint` arithmetic; the
   * division throws DivideByZeroException when the wrapped denominator is zero.
   */
  function Combinations(n: uint32, r: uint32): Result<uint32, Exception>
  {
    WrappedQuotient(Factorial(n), Factorial(r), Factorial(WrapUInt32(n - r)))
  }

  /** The last step of `Combinations`: `top / (a * b)` with the product wrapped, throwing when it wraps to zero. */
  function WrappedQuotient(top: uint32, a: uint32, b: uint32): Result<uint32, Exception>
  {
    var denominator := WrapUInt32(a * b);
    if denominator == 0 then Err(DivideByZero)
    else
      DivAtMost(top, denominator);
      Ok(top / denominator)
  }

  /** When the product does not wrap and is not zero, the quotient is exact. */
  lemma WrappedQuotientExact(top: uint32, a: uint32, b: uint32, c: nat)
    requires 1 <= a * b < TwoTo32 && top / (a * b) == c
    ensures WrappedQuotient(top, a, b) == Ok(c)
  {
  }

  /** Dividing by a positive number does not increase a natural number. */
  lemma DivAtMost(a: nat, d: nat)
    requires d >= 1
    ensures 0 <= a / d <= a
  {
    if a / d > 0 {
      MulAtLeast(a / d, d);
      assert a == d * (a / d) + a % d;
    }
  }

  /** The factorial grows with its argument. */
  lemma {:induction false} FactorialMonotone(a: nat, b: nat)
    requires a <= b
    ensures TrueFactorial(a) <= TrueFactorial(b)
    decreases b - a
  {
    if a < b {
      FactorialMonotone(a, b - 1);
      assert TrueFactorial(b) == b * TrueFactorial(b - 1);
    }
  }

  /** Up to 12 the factorial fits in 32 bits and is exact; 13! does not fit. */
  lemma FactorialExact(x: uint32)
    requires x <= 12
    ensures Factorial(x) == TrueFactorial(x)
  {
    assert TrueFactorial(12) == 479001600;
    FactorialMonotone(x, 12);
  }

  /** Every factorial from 34 on has 2^32 as a factor, so the wrapped factorial is 0. */
  lemma {:induction false} FactorialVanishes(x: uint32)
    requires x >= 34
    ensures Factorial(x) == 0
  {
    FactorialDivisible(x);
  }

  lemma {:induction false} FactorialDivisible(n: nat)
    requires n >= 34
    ensures TrueFactorial(n) % TwoTo32 == 0
  {
    if n == 34 {
      assert TrueFactorial(1) == 1;
      assert TrueFactorial(2) == 2;
      assert TrueFactorial(3) == 6;
      assert TrueFactorial(4) == 24;
      assert TrueFactorial(5) == 120;
      assert TrueFactorial(6) == 720;
      assert TrueFactorial(7) == 5040;
      assert TrueFactorial(8) == 40320;
      assert TrueFactorial(9) == 362880;
      assert TrueFactorial(10) == 3628800;
      assert TrueFactorial(11) == 39916800;
      assert TrueFactorial(12) == 479001600;
      assert TrueFactorial(13) == 6227020800;
      assert TrueFactorial(14) == 87178291200;
      assert TrueFactorial(15) == 1307674368000;
      assert TrueFactorial(16) == 20922789888000;
      assert TrueFactorial(17) == 355687428096000;
      assert TrueFactorial(18) == 6402373705728000;
      assert TrueFactorial(19) == 121645100408832000;
      assert TrueFactorial(20) == 2432902008176640000;
      assert TrueFactorial(21) == 51090942171709440000;
      assert TrueFactorial(22) == 1124000727777607680000;
      assert TrueFactorial(23) == 25852016738884976640000;
      assert TrueFactorial(24) == 620448401733239439360000;
      assert TrueFactorial(25) == 15511210043330985984000000;
      assert TrueFactorial(26) == 403291461126605635584000000;
      assert TrueFactorial(27) == 10888869450418352160768000000;
      assert TrueFactorial(28) == 304888344611713860501504000000;
      assert TrueFactorial(29) == 8841761993739701954543616000000;
      assert TrueFactorial(30) == 265252859812191058636308480000000;
      assert TrueFactorial(31) == 8222838654177922817725562880000000;
      assert TrueFactorial(32) == 263130836933693530167218012160000000;
      assert TrueFactorial(33) == 8683317618811886495518194401280000000;
      assert TrueFactorial(34) == 295232799039604140847618609643520000000;
    } else {
      FactorialDivisible(n - 1);
      var q := TrueFactorial(n - 1) / TwoTo32;
      assert TrueFactorial(n - 1) == q * TwoTo32;
      assert TrueFactorial(n) == (n * q) * TwoTo32;
      ModShift(0, n * q, TwoTo32);
    }
  }

  /** With `r > n` the wrapped denominator is always zero: the call throws. */
  lemma CombinationsRAboveN(n: uint32, r: uint32)
    requires r > n
    ensures Combinations(n, r) == Err(DivideByZero)
  {
    if r >= 34 {
      FactorialVanishes(r);
    } else {
      assert WrapUInt32(n - r) == n - r + TwoTo32;
      FactorialVanishes(WrapUInt32(n - r));
    }
  }

  /** The binomial coefficient, by Pascal's rule; zero when `r > n`. */
  function Choose(n: nat, r: nat): nat
  {
    if r == 0 then 1
    else if n == 0 then 0
    else Choose(n - 1, r - 1) + Choose(n - 1, r)
  }

  /** The binomial coefficient is what `Combinations` means to compute: `C(n, r) * r! * (n - r)! == n!`. */
  lemma {:induction false} ChooseFactorial(n: nat, r: nat)
    requires r <= n
    ensures Choose(n, r) * TrueFactorial(r) * TrueFactorial(n - r) == TrueFactorial(n)
  {
    if r == 0 {
    } else if r == n {
      ChooseZeroAbove(n - 1, r);
      ChooseFactorial(n - 1, r - 1);
      assert Choose(n, r) == Choose(n - 1, r - 1);
      assert TrueFactorial(r) == r * TrueFactorial(r - 1);
    } else {
      ChooseFactorial(n - 1, r - 1);
      ChooseFactorial(n - 1, r);
      PascalStep(Choose(n - 1, r - 1), Choose(n - 1, r), TrueFactorial(r - 1), TrueFactorial(n - r - 1),
                 TrueFactorial(n - 1), r, n);
      assert TrueFactorial(r) == r * TrueFactorial(r - 1);
      assert TrueFactorial(n - r) == (n - r) * TrueFactorial(n - r - 1);
    }
  }

  /** The algebra of one Pascal step: `(a + b) r! (n-r)! == r (a (r-1)! (n-r)!) + (n-r) (b r! (n-r-1)!)`. */
  lemma PascalStep(a: int, b: int, f: int, g: int, h: int, r: int, n: int)
    requires a * f * ((n - r) * g) == h
    requires b * (r * f) * g == h
    ensures (a + b) * (r * f) * ((n - r) * g) == n * h
  {
    var x := a * f * ((n - r) * g);
    var y := b * (r * f) * g;
    calc {
      (a + b) * (r * f) * ((n - r) * g);
      a * (r * f) * ((n - r) * g) + b * (r * f) * ((n - r) * g);
      { assert a * (r * f) * ((n - r) * g) == r * x; assert b * (r * f) * ((n - r) * g) == (n - r) * y; }
      r * x + (n - r) * y;
      r * h + (n - r) * h;
    }
  }

  lemma {:induction false} ChooseZeroAbove(n: nat, r: nat)
    requires r > n
    ensures Choose(n, r) == 0
  {
    if n > 0 {
      ChooseZeroAbove(n - 1, r - 1);
      ChooseZeroAbove(n - 1, r);
    }
  }

  /** For arguments up to 12 the 32-bit computation is exact: it returns the binomial coefficient. */
  lemma CombinationsExact(n: uint32, r: uint32)
    requires r <= n <= 12
    ensures Combinations(n, r) == Ok(Choose(n, r))
  {
    assert WrapUInt32(n - r) == n - r;
    SmallFactorialQuotient(n, r);
    WrappedQuotientExact(Factorial(n), Factorial(r), Factorial(n - r), Choose(n, r));
  }

  /** Up to 12 the 32-bit factorials are exact, so `n! / (r! (n - r)!)` is the binomial coefficient. */
  lemma SmallFactorialQuotient(n: uint32, r: uint32)
    requires r <= n <= 12
    ensures 1 <= Factorial(r) * Factorial(n - r) < TwoTo32
    ensures Factorial(n) / (Factorial(r) * Factorial(n - r)) == Choose(n, r)
  {
    FactorialExact(n);
    FactorialExact(r);
    FactorialExact(n - r);
    TrueFactorialQuotient(n, r, Factorial(n), Factorial(r), Factorial(n - r));
  }

  /** `n! / (r! (n - r)!) == C(n, r)`, with the factorials passed as plain numbers. */
  lemma TrueFactorialQuotient(n: nat, r: nat, fn: nat, fr: nat, fnr: nat)
    requires r <= n <= 12
    requires fn == TrueFactorial(n) && fr == TrueFactorial(r) && fnr == TrueFactorial(n - r)
    ensures 1 <= fr * fnr < TwoTo32 && fn / (fr * fnr) == Choose(n, r)
  {
    var c := Choose(n, r);
    ChooseFactorial(n, r);
    ChoosePositive(n, r);
    FactorialFits(n);
    assert c * fr * fnr == fn;
    QuotientOfFactorials(c, fn, fr, fnr);
  }

  lemma QuotientOfFactorials(c: nat, fn: nat, fr: nat, fnr: nat)
    requires c >= 1 && fr >= 1 && fnr >= 1 && c * fr * fnr == fn && fn < TwoTo32
    ensures fr * fnr >= 1 && fr * fnr < TwoTo32 && fn / (fr * fnr) == c
  {
    MulAtLeast(fr, fnr);
    MulAssociative(c, fr, fnr);
    ExactQuotient(fn, fr * fnr, c);
  }

  /** Up to 12 the factorial is below 2^32. */
  lemma FactorialFits(n: nat)
    requires n <= 12
    ensures TrueFactorial(n) < TwoTo32
  {
    FactorialMonotone(n, 12);
    assert TrueFactorial(12) == 479001600;
  }

  lemma MulAssociative(a: int, b: int, c: int)
    ensures a * b * c == a * (b * c)
  {
  }

  /** An exact quotient: dividing a product by one factor gives the other. */
  lemma ExactQuotient(f: int, d: int, c: int)
    requires c >= 1 && d >= 1 && c * (d) == f
    ensures d <= f && f / d == c
  {
    MulAtLeast(d, c);
    assert c * d == d * c;
    ModUnique(f, d, c, 0);
  }

  lemma {:induction false} ChoosePositive(n: nat, r: nat)
    requires r <= n
    ensures Choose(n, r) >= 1
  {
    if r > 0 {
      ChoosePositive(n - 1, r - 1);
    }
  }

  /** The wrap-around shows from 13 on: `Combinations(13, 1)` is 4, not 13. */
  lemma CombinationsOverflow()
    ensures Combinations(13, 1) == Ok(4)
    ensures Choose(13, 1) == 13
  {
    assert TrueFactorial(13) == 6227020800;
    assert Factorial(13) == 1932053504;
    FactorialExact(12);
    FactorialExact(1);
    ChooseFactorial(13, 1);
    ChoosePositive(12, 0);
    assert TrueFactorial(12) == 479001600;
  }
}
