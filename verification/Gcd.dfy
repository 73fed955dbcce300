/** Euclid's algorithm by template recursion, with Lamé's bound on its depth. */
module Gcd {
  import opened Wrappers
  import opened FibonacciFacts

  /** The recursion and its base-case specialisation. */
  function Gcd(a: nat, b: nat): nat
    decreases b
  {
    if b == 0 then a else Gcd(b, a % b)
  }

  /** How many divisions the recursion performs. */
  function Steps(a: nat, b: nat): nat
    decreases b
  {
    if b == 0 then 0 else 1 + Steps(b, a % b)
  }

  ghost predicate Divides(d: nat, n: nat) {
    exists q: nat :: n == q * d
  }

  lemma DividesCombination(d: nat, x: nat, y: nat, k: nat)
    requires Divides(d, x) && Divides(d, y)
    ensures Divides(d, k * x + y)
  {
    var p: nat :| x == p * d;
    var q: nat :| y == q * d;
    FactorIn(p, q, k, d);
    var n: nat := k * p + q;
    assert k * x + y == n * d;
  }

  lemma FactorIn(p: nat, q: nat, k: nat, d: nat)
    ensures k * (p * d) + q * d == (k * p + q) * d
  {
    assert k * (p * d) == (k * p) * d;
  }

  lemma FactorOut(p: nat, q: nat, k: nat, d: nat, y: nat)
    requires k * (p * d) + y == q * d
    ensures y == (q - k * p) * d
  {
    assert k * (p * d) == (k * p) * d;
    assert (q - k * p) * d == q * d - (k * p) * d;
  }

  lemma DividesRemainder(d: nat, x: nat, y: nat, k: nat)
    requires Divides(d, x) && Divides(d, k * x + y)
    ensures Divides(d, y)
  {
    var p: nat :| x == p * d;
    var q: nat :| k * x + y == q * d;
    FactorOut(p, q, k, d, y);
    var w := q - k * p;
    if w >= 0 {
      var n: nat := w;
      assert y == n * d;
    } else {
      NegativeFactor(w, d);
      assert y == 0 * d;
    }
  }

  lemma NegativeFactor(w: int, d: nat)
    requires w < 0
    ensures w * d <= 0
  {
  }

  /** The result divides both arguments, and every common divisor divides it. */
  lemma {:induction false} GcdIsGreatest(a: nat, b: nat, d: nat)
    ensures Divides(Gcd(a, b), a) && Divides(Gcd(a, b), b)
    ensures Divides(d, a) && Divides(d, b) <==> Divides(d, Gcd(a, b))
    decreases b
  {
    if b == 0 {
      assert a == 1 * a && 0 == 0 * a && 0 == 0 * d;
    } else {
      var k, r, g := a / b, a % b, Gcd(a, b);
      assert a == k * b + r;
      GcdIsGreatest(b, r, d);
      DividesCombination(g, b, r, k);
      if Divides(d, a) && Divides(d, b) {
        DividesRemainder(d, b, r, k);
      }
      if Divides(d, b) && Divides(d, r) {
        DividesCombination(d, b, r, k);
      }
    }
  }

  /** These two facts single the result out; it is zero only for two zeros. */
  lemma GcdIsUnique(a: nat, b: nat, g: nat)
    requires Divides(g, a) && Divides(g, b)
    requires forall d :: Divides(d, a) && Divides(d, b) ==> Divides(d, g)
    ensures g == Gcd(a, b)
    ensures g == 0 <==> a == 0 && b == 0
  {
    GcdIsGreatest(a, b, g);
    GcdIsGreatest(a, b, 0);
    DividesBothWays(g, Gcd(a, b));
    assert Divides(0, 0) by { assert 0 == 0 * 0; }
  }

  lemma DividesAtMost(d: nat, n: nat)
    requires Divides(d, n) && n > 0
    ensures 0 < d <= n
  {
    var q: nat :| n == q * d;
    assert q >= 1 && d >= 1;
    assert q * d >= 1 * d;
  }

  lemma DividesBothWays(x: nat, y: nat)
    requires Divides(x, y) && Divides(y, x)
    ensures x == y
  {
    if x > 0 { DividesAtMost(y, x); }
    if y > 0 { DividesAtMost(x, y); }
  }

  // ----- Lamé's bound -----

  lemma DivisionShrinks(a: nat, b: nat)
    requires a > b >= 1
    ensures a >= b + a % b
  {
    var q := a / b;
    assert a == b * q + a % b;
    assert q >= 1;
    assert b * q >= b;
  }

  /** A run of n divisions that starts with the larger number needs Fibonacci-sized arguments. */
  lemma {:induction false} Lame(a: nat, b: nat, n: nat)
    requires a > b >= 1 && n == Steps(a, b)
    ensures n >= 1 && a >= Fib(n + 2) && b >= Fib(n + 1)
    decreases b
  {
    DivisionShrinks(a, b);
    var r := a % b;
    if r > 0 {
      Lame(b, r, n - 1);
    } else {
      assert n == 1 && Fib(2) == 1 && Fib(3) == 2;
    }
  }

  lemma AtMost91Steps(a: nat, b: nat, n: nat)
    requires a > b && a < 0x1_0000_0000_0000_0000 && n == Steps(a, b)
    ensures n <= 91
  {
    if b >= 1 {
      Lame(a, b, n);
      var k: nat := 11;  // not a literal: see FibonacciFacts.FibSmall
      FibAround64Bits(k);
      if n >= 92 {
        FibMonotone(8 * k + 6, n + 2);
      }
    }
  }

  /** At most 92 divisions for any two 64-bit numbers. */
  lemma AtMost92Steps(a: nat, b: nat)
    requires a < 0x1_0000_0000_0000_0000 && b < 0x1_0000_0000_0000_0000
    ensures Steps(a, b) <= 92
  {
    if a > b {
      AtMost91Steps(a, b, Steps(a, b));
    } else if b >= 1 {
      var r := a % b;
      assert Steps(a, b) == 1 + Steps(b, r);
      AtMost91Steps(b, r, Steps(b, r));
    }
  }

  lemma RemainderOfSum(x: nat, y: nat)
    requires y < x
    ensures (x + y) % x == y
  {
  }

  /** Neighbouring Fibonacci numbers take as many divisions as the bound allows. */
  lemma {:induction false} FibonacciSteps(n: nat, a: nat, b: nat)
    requires n >= 2 && a == Fib(n + 1) && b == Fib(n)
    ensures Steps(a, b) == n - 1
    decreases n
  {
    if n == 2 {
      assert Fib(3) == 2 && Fib(2) == 1;
      assert Steps(2, 1) == 1 + Steps(1, 0);
    } else {
      var c := Fib(n - 1);
      FibStrict(n - 1, n);
      FibMonotone(1, n - 1);
      RemainderOfSum(b, c);
      FibonacciSteps(n - 1, b, c);
      assert Steps(a, b) == 1 + Steps(b, c);
    }
  }

  lemma SmallerFirst(a: nat, b: nat)
    requires a < b
    ensures Steps(a, b) == 1 + Steps(b, a)
  {
    assert a % b == a;
  }

  /** Given the smaller number first, one more division only swaps them. */
  lemma SwappedSteps(n: nat, a: nat, b: nat)
    requires n >= 2 && a == Fib(n) && b == Fib(n + 1)
    ensures Steps(a, b) == n
  {
    FibStrict(n, n + 1);
    FibonacciSteps(n, b, a);
    SmallerFirst(a, b);
  }

  /** The bound is reached by two 64-bit numbers. */
  lemma BoundIsTight() returns (a: nat, b: nat)
    ensures a < 0x1_0000_0000_0000_0000 && b < 0x1_0000_0000_0000_0000
    ensures Steps(a, b) == 92
  {
    var k: nat := 11;  // not a literal: see FibonacciFacts.FibSmall
    FibAround64Bits(k);
    a, b := Fib(8 * k + 4), Fib(8 * k + 5);
    FibMonotone(8 * k + 4, 8 * k + 5);
    SwappedSteps(8 * k + 4, a, b);
  }

  // ----- signed arguments -----

  const INT64_MIN: int := -0x8000_0000_0000_0000
  const INT64_MAX: int := 0x7FFF_FFFF_FFFF_FFFF

  predicate IsInt64(x: int) {
    INT64_MIN <= x <= INT64_MAX
  }

  function Abs(x: int): nat {
    if x < 0 then -x else x
  }

  /** Negation of a 64-bit value; None where it overflows, which is not a constant expression. */
  function Negate(x: int): Option<int> {
    if IsInt64(-x) then Some(-x) else None
  }

  /** handle_gcd_signs; None when the program does not compile. */
  function HandleSigns(a: int, b: int): Option<nat>
    requires IsInt64(a) && IsInt64(b)
  {
    if a < 0 then
      if b < 0 then
        (match (Negate(a), Negate(b))
         case (Some(x), Some(y)) => Some(Gcd(x, y))
         case _ => None)
      else (match Negate(a) case Some(x) => Some(Gcd(x, b)) case None => None)
    else if b < 0 then
      (match Negate(b) case Some(y) => Some(Gcd(a, y)) case None => None)
    else Some(Gcd(a, b))
  }

  /** The signed form compiles exactly when neither argument is the minimum value, and then
      gives the greatest common divisor of the absolute values, within 92 divisions. */
  lemma SignedGcd(a: int, b: int, d: nat)
    requires IsInt64(a) && IsInt64(b)
    ensures HandleSigns(a, b).Some? <==> a != INT64_MIN && b != INT64_MIN
    ensures HandleSigns(a, b).Some? ==>
              var g := HandleSigns(a, b).value;
              && g == Gcd(Abs(a), Abs(b))
              && (Divides(d, Abs(a)) && Divides(d, Abs(b)) <==> Divides(d, g))
              && Steps(Abs(a), Abs(b)) <= 92
  {
    GcdIsGreatest(Abs(a), Abs(b), d);
    AtMost92Steps(Abs(a), Abs(b));
  }
}
