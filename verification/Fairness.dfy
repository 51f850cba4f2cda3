/**
  Jain's fairness index over a group of byte counters, computed in unsigned 64-bit arithmetic and divided as
  real numbers.
*/
module Fairness {

  const Two64 := 0x1_0000_0000_0000_0000
  const Two32 := 0x1_0000_0000

  function Wrap(x: nat): nat { x % Two64 }

  ghost predicate Words(c: seq<nat>) { forall i | 0 <= i < |c| :: c[i] < Two64 }

  // ---------- Exact sums ----------

  function Sum(c: seq<nat>): nat {
    if c == [] then 0 else Sum(c[..|c| - 1]) + c[|c| - 1]
  }

  function SumSquares(c: seq<nat>): nat {
    if c == [] then 0 else SumSquares(c[..|c| - 1]) + c[|c| - 1] * c[|c| - 1]
  }

  /** Zero divided by zero is no number, anything else divided by zero is infinite. */
  datatype Index = NotANumber | Infinite | Index(value: real)

  function Divide(a: nat, b: nat): Index {
    if b > 0 then Index.Index(a as real / b as real) else if a == 0 then NotANumber else Infinite
  }

  /** The printed index, from the two accumulators as the program has them. */
  function Quotient(n: nat, sum: nat, sumSquares: nat): Index {
    Divide(Wrap(sum * sum), Wrap(n * sumSquares))
  }

  /** One group's loop of `PrintFairness`. */
  method GroupFairness(counters: seq<nat>) returns (sum: nat, sumSquares: nat, fairness: Index)
    requires Words(counters)
    ensures sum == Wrap(Sum(counters)) && sumSquares == Wrap(SumSquares(counters))
    ensures fairness == Quotient(|counters|, sum, sumSquares)
  {
    sum, sumSquares := 0, 0;
    for i := 0 to |counters|
      invariant sum == Wrap(Sum(counters[..i])) && sumSquares == Wrap(SumSquares(counters[..i]))
    {
      SumsNext(counters, i);
      sum := Wrap(sum + counters[i]);
      sumSquares := Wrap(sumSquares + Wrap(counters[i] * counters[i]));
    }
    assert counters[..|counters|] == counters;
    fairness := Quotient(|counters|, sum, sumSquares);
  }

  lemma SumsNext(c: seq<nat>, i: nat)
    requires i < |c|
    ensures Wrap(Sum(c[..i + 1])) == Wrap(Wrap(Sum(c[..i])) + c[i])
    ensures Wrap(SumSquares(c[..i + 1])) == Wrap(Wrap(SumSquares(c[..i])) + Wrap(c[i] * c[i]))
  {
    assert c[..i + 1][..i] == c[..i];
    WrapAdd(Sum(c[..i]), c[i]);
    WrapAdd(SumSquares(c[..i]), c[i] * c[i]);
  }

  lemma WrapAdd(x: nat, y: nat)
    ensures Wrap(Wrap(x) + y) == Wrap(x + y) && Wrap(Wrap(x) + Wrap(y)) == Wrap(x + y)
  {
    WrapLeft(x, y);
    WrapLeft(y, Wrap(x));
  }

  lemma WrapLeft(x: nat, y: nat)
    ensures Wrap(Wrap(x) + y) == Wrap(x + y)
  {
  }

  // ---------- Lagrange's identity ----------

  /** The squared distances from `x`. */
  function Distances(c: seq<nat>, x: nat): int {
    if c == [] then 0 else Distances(c[..|c| - 1], x) + (c[|c| - 1] - x) * (c[|c| - 1] - x)
  }

  /** The squared differences of all pairs. */
  function Spread(c: seq<nat>): int {
    if c == [] then 0 else Spread(c[..|c| - 1]) + Distances(c[..|c| - 1], c[|c| - 1])
  }

  lemma {:induction false} DistancesExpand(c: seq<nat>, x: nat)
    ensures Distances(c, x) == SumSquares(c) - 2 * (x * Sum(c)) + |c| * (x * x)
  {
    if c != [] {
      var front, y := c[..|c| - 1], c[|c| - 1];
      DistancesExpand(front, x);
      DistanceStep(|front|, Sum(front), x, y);
    }
  }

  lemma DistanceStep(k: nat, sum: nat, x: nat, y: nat)
    ensures (y - x) * (y - x) == y * y - 2 * (x * y) + x * x
    ensures x * (sum + y) == x * sum + x * y && (k + 1) * (x * x) == k * (x * x) + x * x
  {
  }

  /** n times the sum of squares exceeds the square of the sum by the squared differences of all pairs. */
  lemma {:induction false} Lagrange(c: seq<nat>)
    ensures |c| * SumSquares(c) == Sum(c) * Sum(c) + Spread(c)
  {
    if c != [] {
      var front, x := c[..|c| - 1], c[|c| - 1];
      Lagrange(front);
      DistancesExpand(front, x);
      LagrangeStep(|front|, Sum(front), SumSquares(front), x, Spread(front));
    }
  }

  lemma LagrangeStep(k: nat, s: nat, q: nat, x: nat, spread: int)
    requires k * q == s * s + spread
    ensures (k + 1) * (q + x * x) == (s + x) * (s + x) + spread + (q - 2 * (x * s) + k * (x * x))
  {
    assert (k + 1) * (q + x * x) == k * q + q + k * (x * x) + x * x;
    assert (s + x) * (s + x) == s * s + 2 * (x * s) + x * x;
  }

  ghost predicate AllEqual(c: seq<nat>) { forall i, j | 0 <= i < j < |c| :: c[i] == c[j] }

  lemma {:induction false} DistancesZero(c: seq<nat>, x: nat)
    ensures Distances(c, x) >= 0
    ensures Distances(c, x) == 0 <==> forall i | 0 <= i < |c| :: c[i] == x
  {
    if c != [] {
      var front, y := c[..|c| - 1], c[|c| - 1];
      DistancesZero(front, x);
      Square(y - x);
      assert forall i | 0 <= i < |front| :: front[i] == c[i];
    }
  }

  lemma Square(d: int)
    ensures d * d >= 0 && (d * d == 0 <==> d == 0)
  {
  }

  lemma {:induction false} SpreadZero(c: seq<nat>)
    ensures Spread(c) >= 0 && (Spread(c) == 0 <==> AllEqual(c))
  {
    if c != [] {
      var front, x := c[..|c| - 1], c[|c| - 1];
      SpreadZero(front);
      DistancesZero(front, x);
      assert forall i | 0 <= i < |front| :: front[i] == c[i];
    }
  }

  /** The square of a sum of naturals is at least the sum of their squares. */
  lemma SquareGrows(sum: nat, x: nat, squares: nat)
    requires sum * sum >= squares
    ensures (sum + x) * (sum + x) >= squares + x * x
  {
    assert (sum + x) * (sum + x) == sum * sum + 2 * (sum * x) + x * x;
  }

  lemma {:induction false} NoSquares(c: seq<nat>)
    ensures SumSquares(c) == 0 <==> forall i | 0 <= i < |c| :: c[i] == 0
  {
    if c != [] {
      var front, x := c[..|c| - 1], c[|c| - 1];
      NoSquares(front);
      Square(x);
      assert forall i | 0 <= i < |front| :: front[i] == c[i];
    }
  }

  lemma {:induction false} SquareOfSum(c: seq<nat>)
    ensures Sum(c) * Sum(c) >= SumSquares(c)
    ensures SumSquares(c) == 0 <==> forall i | 0 <= i < |c| :: c[i] == 0
  {
    NoSquares(c);
    if c != [] {
      var front, x := c[..|c| - 1], c[|c| - 1];
      SquareOfSum(front);
      SquareGrows(Sum(front), x, SumSquares(front));
    }
  }

  // ---------- No overflow ----------

  lemma {:induction false} SumBounds(c: seq<nat>, m: nat)
    requires forall i | 0 <= i < |c| :: c[i] <= m
    ensures Sum(c) <= |c| * m && SumSquares(c) <= |c| * (m * m)
  {
    if c != [] {
      var front, x := c[..|c| - 1], c[|c| - 1];
      SumBounds(front, m);
      MulMono(x, x, m, m);
      OneMore(|front|, m);
      OneMore(|front|, m * m);
    }
  }

  lemma OneMore(k: nat, y: nat)
    ensures (k + 1) * y == k * y + y
  {
  }

  lemma SquareOfProduct(n: nat, m: nat)
    ensures n * (n * (m * m)) == (n * m) * (n * m)
  {
    assert n * (m * m) == (n * m) * m;
    assert n * ((n * m) * m) == (n * m) * (n * m);
  }

  lemma MulMono(a: nat, b: nat, x: nat, y: nat)
    requires a <= x && b <= y
    ensures a * b <= x * y
  {
    assert a * b <= a * y;
    assert a * y <= x * y;
  }

  /** If n times the largest counter is below 2^32, nothing wraps in 64 bits. */
  lemma NoOverflow(c: seq<nat>, m: nat)
    requires (forall i | 0 <= i < |c| :: c[i] <= m) && |c| * m < Two32
    ensures Sum(c) * Sum(c) < Two64 && |c| * SumSquares(c) < Two64
    ensures Sum(c) < Two64 && SumSquares(c) < Two64
  {
    var n := |c|;
    SumBounds(c, m);
    if c != [] {
      var b := n * m;
      MulMono(Sum(c), Sum(c), b, b);
      MulMono(b, b, Two32 - 1, Two32 - 1);
      MulMono(n, SumSquares(c), n, n * (m * m));
      SquareOfProduct(n, m);
      MulMono(1, SumSquares(c), n, SumSquares(c));
    }
  }

  /**
    As long as n times the sum of squares fits into 64 bits, the printed index of counters not all zero lies
    between 1/n and 1, and it is 1 exactly when all counters are equal.
  */
  lemma IndexRange(c: seq<nat>)
    requires |c| * SumSquares(c) < Two64
    requires exists i :: 0 <= i < |c| && c[i] != 0
    ensures var r := Quotient(|c|, Wrap(Sum(c)), Wrap(SumSquares(c)));
            && r.Index?
            && 1.0 / |c| as real <= r.value <= 1.0
            && (r.value == 1.0 <==> AllEqual(c))
  {
    var n, s, q := |c|, Sum(c), SumSquares(c);
    IndexFacts(c);
    QuotientExact(n, s, q);
    Ratio(n, s * s, q);
  }

  /** This is so if n times the largest counter is below 2^32. */
  lemma IndexRangeByLargest(c: seq<nat>, m: nat)
    requires (forall i | 0 <= i < |c| :: c[i] <= m) && |c| * m < Two32
    requires exists i :: 0 <= i < |c| && c[i] != 0
    ensures var r := Quotient(|c|, Wrap(Sum(c)), Wrap(SumSquares(c)));
            r.Index? && 1.0 / |c| as real <= r.value <= 1.0 && (r.value == 1.0 <==> AllEqual(c))
  {
    NoOverflow(c, m);
    IndexRange(c);
  }

  // ---------- Equal counters, wrapped or not ----------

  lemma {:induction false} Constant(n: nat, m: nat)
    ensures Sum(seq(n, _ => m)) == n * m && SumSquares(seq(n, _ => m)) == n * (m * m)
  {
    if n > 0 {
      assert seq(n, _ => m)[..n - 1] == seq(n - 1, _ => m);
      Constant(n - 1, m);
      OneMore(n - 1, m);
      OneMore(n - 1, m * m);
    }
  }

  function TwoTo(k: nat): nat { if k == 0 then 1 else 2 * TwoTo(k - 1) }

  function FourTo(k: nat): nat { if k == 0 then 1 else 4 * FourTo(k - 1) }

  lemma FourMore(k: nat)
    ensures TwoTo(k + 4) == 16 * TwoTo(k) && FourTo(k + 4) == 256 * FourTo(k)
  {
    assert TwoTo(k + 3) == 4 * TwoTo(k + 1) && FourTo(k + 3) == 16 * FourTo(k + 1);
  }

  lemma WordSizes()
    ensures TwoTo(32) == Two32 && FourTo(32) == Two64
  {
    FourMore(0);
    FourMore(4);
    FourMore(8);
    FourMore(12);
    FourMore(16);
    FourMore(20);
    FourMore(24);
    FourMore(28);
  }

  lemma OddSquare(u: nat)
    ensures (2 * u + 1) * (2 * u + 1) == 2 * (2 * (u * u) + 2 * u) + 1
  {
  }

  lemma EvenSquare(u: nat)
    ensures (2 * u) * (2 * u) == 4 * (u * u)
  {
  }

  lemma Associative(x: nat, y: nat, z: nat)
    ensures x * (y * z) == y * (x * z)
  {
  }

  /** If a power of four divides a square, the power of two divides its root. */
  lemma {:induction false} RootDivisible(k: nat, s: nat, x: nat) returns (y: nat)
    requires s * s == x * FourTo(k)
    ensures s == y * TwoTo(k)
  {
    if k == 0 {
      y := s;
    } else {
      Associative(x, 4, FourTo(k - 1));
      var u := s / 2;
      if s == 2 * u + 1 {
        OddSquare(u);
        assert false;
      }
      EvenSquare(u);
      y := RootDivisible(k - 1, u, x);
      Associative(y, 2, TwoTo(k - 1));
    }
  }

  lemma SquareOfMultiple(y: nat, t: nat)
    ensures (y * t) * (y * t) == (y * y) * (t * t)
  {
    assert (y * t) * (y * t) == y * (t * (y * t));
    Associative(t, y, t);
    assert y * (y * (t * t)) == (y * y) * (t * t);
  }

  lemma MultipleOf(x: nat, d: nat)
    requires d > 0
    ensures (x * d) % d == 0
  {
    assert x * d + 0 == d * x;
    RemainderOf(x * d, d, x, 0);
  }

  lemma RemainderOf(a: nat, d: nat, q: nat, r: nat)
    requires d > 0 && r < d && a == d * q + r
    ensures a % d == r
  {
    var q', r' := a / d, a % d;
    assert d * (q - q') == r' - r;
    if q > q' { MulMono(d, 1, d, q - q'); }
    if q < q' { MulMono(d, 1, d, q' - q); }
  }

  /** A square wraps to zero exactly for the multiples of 2^32. */
  lemma SquareWrapsToZero(s: nat)
    ensures Wrap(s * s) == 0 <==> s % Two32 == 0
  {
    WordSizes();
    if Wrap(s * s) == 0 {
      var y := RootDivisible(32, s, s * s / Two64);
      MultipleOf(y, Two32);
    }
    if s % Two32 == 0 {
      var y := s / Two32;
      SquareOfMultiple(y, Two32);
      MultipleOf(y * y, Two64);
    }
  }

  lemma WrapTimes(n: nat, x: nat)
    ensures Wrap(n * Wrap(x)) == Wrap(n * x)
  {
    var q := x / Two64;
    assert x == q * Two64 + Wrap(x);
    assert n * x == n * (q * Two64) + n * Wrap(x);
    assert n * (q * Two64) == (n * q) * Two64;
    WrapMultiple(n * q, n * Wrap(x));
  }

  lemma WrapMultiple(q: nat, y: nat)
    ensures Wrap(q * Two64 + y) == Wrap(y)
  {
  }

  lemma WrapSquare(s: nat)
    ensures Wrap(Wrap(s) * Wrap(s)) == Wrap(s * s)
  {
    WrapTimes(Wrap(s), s);
    WrapTimes(s, s);
  }

  lemma SelfDivide(d: nat)
    ensures Divide(d, d) == if d == 0 then NotANumber else Index.Index(1.0)
  {
  }

  /** Equal counters give 1 whether or not their sums wrap, unless the products wrap to zero. */
  lemma EqualCounters(n: nat, m: nat)
    ensures Quotient(n, Wrap(Sum(seq(n, _ => m))), Wrap(SumSquares(seq(n, _ => m))))
         == if (n * m) % Two32 == 0 then NotANumber else Index.Index(1.0)
  {
    var s := n * m;
    Constant(n, m);
    SquareOfProduct(n, m);
    WrapTimes(n, n * (m * m));
    WrapSquare(s);
    SquareWrapsToZero(s);
    SelfDivide(Wrap(s * s));
  }

  /** So ten equal counters of 2^32 give no number. */
  lemma WrappedExample()
    ensures var c := seq(10, _ => Two32);
            AllEqual(c) && Quotient(|c|, Wrap(Sum(c)), Wrap(SumSquares(c))) == NotANumber
  {
    EqualCounters(10, Two32);
  }

  lemma QuotientExact(n: nat, s: nat, q: nat)
    requires s < Two64 && q < Two64 && s * s < Two64 && 0 < n * q < Two64
    ensures Quotient(n, Wrap(s), Wrap(q)) == Index.Index((s * s) as real / (n * q) as real)
  {
    WrapSmall(s);
    WrapSmall(q);
    WrapSmall(s * s);
    WrapSmall(n * q);
  }

  lemma WrapSmall(x: nat)
    requires x < Two64
    ensures Wrap(x) == x
  {
  }

  lemma IndexFacts(c: seq<nat>)
    requires |c| * SumSquares(c) < Two64
    requires exists i :: 0 <= i < |c| && c[i] != 0
    ensures Sum(c) < Two64 && SumSquares(c) < Two64 && Sum(c) * Sum(c) < Two64
    ensures 0 < SumSquares(c) <= Sum(c) * Sum(c) <= |c| * SumSquares(c) && |c| > 0
    ensures Sum(c) * Sum(c) == |c| * SumSquares(c) <==> AllEqual(c)
  {
    SquareOfSum(c);
    Lagrange(c);
    SpreadZero(c);
    assert 1 * SumSquares(c) <= |c| * SumSquares(c) by { MulMono(1, SumSquares(c), |c|, SumSquares(c)); }
    if Sum(c) > 0 { MulMono(1, Sum(c), Sum(c), Sum(c)); }
  }

  lemma Cancel(x: real, y: real, n: real, xn: real, yn: real)
    requires n > 0.0 && x * n == xn && y * n == yn && xn <= yn
    ensures x <= y
  {
    if x > y { Scaled(x - y, n); }
  }

  lemma Scaled(d: real, n: real)
    requires d > 0.0 && n > 0.0
    ensures d * n > 0.0
  {
  }

  /** One n-th of n times q is q. */
  lemma InverseTimes(n: real, q: real)
    requires n > 0.0
    ensures (1.0 / n) * (n * q) == q
  {
    var t := 1.0 / n;
    assert t * n == 1.0;
    assert t * (n * q) == (t * n) * q;
  }

  lemma RatioReal(n: real, a: real, q: real, whole: real)
    requires n > 0.0 && whole > 0.0 && whole == n * q && q <= a <= whole
    ensures 1.0 / n <= a / whole <= 1.0
    ensures a / whole == 1.0 <==> a == whole
  {
    var r := a / whole;
    assert r * whole == a;
    InverseTimes(n, q);
    Cancel(r, 1.0, whole, a, whole);
    Cancel(1.0 / n, r, whole, q, a);
  }

  lemma RealProduct(n: nat, q: nat)
    ensures (n * q) as real == n as real * q as real
  {
  }

  lemma Ratio(n: nat, a: nat, q: nat)
    requires n > 0 && q > 0 && q <= a <= n * q
    ensures n * q > 0
    ensures 1.0 / n as real <= a as real / (n * q) as real <= 1.0
    ensures a as real / (n * q) as real == 1.0 <==> a == n * q
  {
    RealProduct(n, q);
    RatioReal(n as real, a as real, q as real, (n * q) as real);
  }

  /** Counters that are all zero give no number. */
  lemma AllZero(c: seq<nat>)
    requires forall i | 0 <= i < |c| :: c[i] == 0
    ensures Quotient(|c|, Wrap(Sum(c)), Wrap(SumSquares(c))) == NotANumber
  {
    SquareOfSum(c);
    WrapSmall(0);
    assert SumSquares(c) == 0 && |c| * 0 == 0;
  }
}
