/** The Fibonacci numbers, and the facts about them that both the generator and the bound on
    Euclid's algorithm use. */
module FibonacciFacts {

  function Fib(n: nat): nat {
    if n < 2 then n else Fib(n - 1) + Fib(n - 2)
  }

  lemma {:induction false} FibMonotone(m: nat, n: nat)
    requires m <= n
    ensures Fib(m) <= Fib(n)
    decreases n
  {
    if m < n {
      FibMonotone(m, n - 1);
    }
  }

  lemma {:induction false} FibStrict(m: nat, n: nat)
    requires 2 <= m < n
    ensures Fib(m) < Fib(n)
    decreases n
  {
    FibMonotone(1, n - 2);
    if m < n - 1 {
      FibStrict(m, n - 1);
    }
  }

  lemma AddStep(x: nat, f0: nat, f1: nat, f2: nat, g0: nat, g1: nat, g2: nat)
    requires f2 == f1 + f0 && g2 == g1 + g0 && x == f1 * g2 + f0 * g1
    ensures x == f2 * g1 + f1 * g0
  {
  }

  /** Addition of indices. */
  lemma {:induction false} FibAdd(m: nat, n: nat, sum: nat)
    requires sum == m + n + 1
    ensures Fib(sum) == Fib(m + 1) * Fib(n + 1) + Fib(m) * Fib(n)
    decreases m
  {
    if m == 0 {
      assert Fib(1) == 1 && Fib(0) == 0;
    } else {
      FibAdd(m - 1, n + 1, sum);
      AddStep(Fib(sum), Fib(m - 1), Fib(m), Fib(m + 1), Fib(n), Fib(n + 1), Fib(n + 2));
    }
  }

  lemma DoubleStep(a: nat, b: nat)
    requires b >= a
    ensures a * b + (b - a) * a == a * (b + b - a)
  {
  }

  /** Doubling an index: the neighbouring values at n + n, from those at n. */
  lemma FibDouble(n: nat, twice: nat, a: nat, b: nat, c: nat, d: nat)
    requires n >= 1 && twice == n + n && Fib(n) == a && Fib(n + 1) == b
    requires b >= a && c == a * (b + b - a) && d == b * b + a * a
    ensures Fib(twice) == c && Fib(twice + 1) == d && Fib(twice + 2) == c + d
  {
    assert b == a + Fib(n - 1);
    FibAdd(n, n, twice + 1);
    FibAdd(n - 1, n, twice);
    DoubleStep(a, b);
  }

  /** The indices of large Fibonacci numbers are written as multiples of a variable that equals
      11: at a literal index the verifier would unroll the recursion all the way down. */
  lemma FibSmall(k: nat)
    requires k == 11
    ensures Fib(k) == 89 && Fib(k + 1) == 144
  {
    assert Fib(k - 9) == 1 && Fib(k - 8) == 2;
    assert Fib(k - 7) == 3 && Fib(k - 6) == 5;
    assert Fib(k - 5) == 8 && Fib(k - 4) == 13;
    assert Fib(k - 3) == 21 && Fib(k - 2) == 34;
  }

  lemma FibAround32Bits(k: nat)
    requires k == 11
    ensures Fib(4 * k + 2) == 1836311903 && Fib(4 * k + 3) == 2971215073
  {
    FibSmall(k);
    FibDouble(k, k + k, 89, 144, 17711, 28657);
    FibDouble(k + k + 1, 4 * k + 2, 28657, 46368, 1836311903, 2971215073);
  }

  /** The largest Fibonacci number below 2 to the 64 has index 93, written 8 * 11 + 5. */
  lemma FibAround64Bits(k: nat)
    requires k == 11
    ensures Fib(8 * k + 5) == 12200160415121876738 < 0x1_0000_0000_0000_0000 <= Fib(8 * k + 6)
  {
    FibAround32Bits(k);
    FibDouble(4 * k + 2, 8 * k + 4, 1836311903, 2971215073, 7540113804746346429, 12200160415121876738);
  }
}

/** The coroutine that yields the Fibonacci numbers of an unsigned type. */
module FibonacciGenerator {
  import opened FibonacciFacts

  /** k is the index of the largest Fibonacci number up to max. */
  predicate IsLimitIndex(max: nat, k: nat) {
    Fib(k) <= max < Fib(k + 1)
  }

  lemma LimitIndexUnique(max: nat, j: nat, k: nat)
    requires IsLimitIndex(max, j) && IsLimitIndex(max, k)
    ensures j == k
  {
    if j < k {
      FibMonotone(j + 1, k);
    } else if k < j {
      FibMonotone(k + 1, j);
    }
  }

  /** std::exchange and += on an unsigned type: addition wraps modulo max + 1. */
  function WrapAdd(max: nat, a: nat, b: nat): (sum: nat)
    requires a <= max && b <= max
    ensures sum <= max
  {
    if a + b <= max then a + b else a + b - (max + 1)
  }

  lemma WrapAddIsModular(max: nat, a: nat, b: nat)
    requires a <= max && b <= max
    ensures WrapAdd(max, a, b) == (a + b) % (max + 1)
  {
    var sum := WrapAdd(max, a, b);
    assert a + b == sum || a + b == (max + 1) + sum;
  }

  /** Stops with the largest representable Fibonacci number; no addition overflows. */
  method FibonacciLimit(max: nat) returns (limit: nat)
    requires max >= 2
    ensures exists k: nat :: IsLimitIndex(max, k) && limit == Fib(k)
    ensures 2 <= limit <= max
  {
    var current, next := 0, 1;
    ghost var index := 1;
    while true
      invariant index >= 1
      invariant current == Fib(index - 1) && next == Fib(index)
      invariant current <= next <= max
      decreases 2 * max - (current + next)
    {
      if max - next < current {
        assert Fib(index + 1) == current + next && IsLimitIndex(max, index);
        return next;
      }
      FibMonotone(index, index + 1);
      current, next := next, WrapAdd(max, next, current);
      index := index + 1;
    }
  }

  /** s lists the Fibonacci numbers from Fib(0) on. */
  ghost predicate ListsFibs(s: seq<nat>) {
    forall i {:trigger s[i]} :: 0 <= i < |s| ==> s[i] == Fib(i)
  }

  /** Below the limit the sum of two neighbours is representable; the limit and its predecessor
      are the first pair whose sum is not. */
  lemma NextTerm(max: nat, index: nat, n: nat)
    requires IsLimitIndex(max, index) && n < index
    ensures Fib(n) <= max && Fib(n + 1) <= max
    ensures n + 1 < index ==> Fib(n) + Fib(n + 1) == Fib(n + 2) <= max
    ensures n + 1 == index ==> Fib(n) + Fib(n + 1) > max
  {
    FibMonotone(n, index);
    FibMonotone(n + 1, index);
    if n + 1 < index {
      FibMonotone(n + 2, index);
    }
  }

  /** Yields exactly Fib(0), ..., Fib(k), every Fibonacci number up to the maximum, and stops.
      One addition overflows, and its result is not among them. */
  method FibonacciNumbers(max: nat) returns (yielded: seq<nat>, ghost wraps: nat)
    requires max >= 2
    ensures |yielded| > 0 && IsLimitIndex(max, |yielded| - 1)
    ensures ListsFibs(yielded)
    ensures wraps == 1
  {
    var limit := FibonacciLimit(max);
    ghost var index: nat :| IsLimitIndex(max, index) && limit == Fib(index);
    assert index >= 1;
    var current, next := 0, 1;
    yielded, wraps := [], 0;
    ghost var n := 0;
    while true
      invariant n == |yielded| <= index && ListsFibs(yielded)
      invariant current == Fib(n) && current <= max && next <= max
      invariant n < index ==> next == Fib(n + 1) && wraps == 0
      invariant n == index ==> wraps == 1
      decreases index - n
    {
      yielded := yielded + [current];
      if current == limit {
        IndexOfLimit(n, index);
        return;
      }
      assert n < index;
      NextTerm(max, index, n);
      if next + current > max {
        wraps := wraps + 1;
      }
      current, next := next, WrapAdd(max, next, current);
      n := n + 1;
    }
  }

  /** Only the index itself gives the limit, which is at least 2. */
  lemma IndexOfLimit(n: nat, index: nat)
    requires n <= index && Fib(n) == Fib(index) >= 2
    ensures n == index
  {
    if 2 <= n < index {
      FibStrict(n, index);
    }
  }

  /** Every Fibonacci number up to the maximum is among the yielded ones. */
  lemma NothingSkipped(max: nat, index: nat, j: nat)
    requires IsLimitIndex(max, index)
    ensures Fib(j) <= max <==> j <= index
  {
    if j <= index {
      FibMonotone(j, index);
    } else {
      FibMonotone(index + 1, j);
    }
  }

  /** For 64 bits the generator yields 94 numbers. */
  method FibonacciNumbers64() returns (yielded: seq<nat>)
    ensures |yielded| == 94 && yielded[93] == 12200160415121876738
  {
    ghost var wraps;
    yielded, wraps := FibonacciNumbers(0xFFFF_FFFF_FFFF_FFFF);
    var k: nat := 11;  // not a literal: see FibSmall
    FibAround64Bits(k);
    LimitIndexUnique(0xFFFF_FFFF_FFFF_FFFF, |yielded| - 1, 8 * k + 5);
  }
}
