/** The byte counters and Jain's fairness index of examples/tcp/dctcp-example.cc, for any number of
    flows, with the 64-bit arithmetic of the program written out. */
module Fairness {

  const TWO_TO_THE_64: nat := 0x1_0000_0000_0000_0000

  /** What a uint64_t holds. */
  function Wrap(x: nat): (r: nat)
    ensures r < TWO_TO_THE_64
    ensures x < TWO_TO_THE_64 ==> r == x
  {
    x % TWO_TO_THE_64
  }

  lemma WrapExactly(x: nat)
    ensures Wrap(x) < 18446744073709551616 && (x - Wrap(x)) % 18446744073709551616 == 0
  {
  }

  function Sum(xs: seq<nat>): nat {
    if xs == [] then 0 else Sum(xs[..|xs| - 1]) + xs[|xs| - 1]
  }

  function SumSquares(xs: seq<nat>): nat {
    if xs == [] then 0 else SumSquares(xs[..|xs| - 1]) + xs[|xs| - 1] * xs[|xs| - 1]
  }

  // ---------------------------------------------------------------------------------------------
  // The inequalities
  // ---------------------------------------------------------------------------------------------

  /** The sum over xs of the squared distances from y. */
  ghost function Spread(xs: seq<nat>, y: nat): nat {
    if xs == [] then 0
    else Spread(xs[..|xs| - 1], y) + Square(xs[|xs| - 1] - y)
  }

  ghost function Square(d: int): (q: nat)
    ensures q == 0 <==> d == 0
  {
    SquareIsPositive(d);
    d * d
  }

  lemma SquareIsPositive(d: int)
    ensures d * d >= 0 && (d * d == 0 <==> d == 0)
  {
  }

  lemma {:induction false} SpreadExpands(xs: seq<nat>, y: nat)
    ensures Spread(xs, y) == SumSquares(xs) - 2 * y * Sum(xs) + |xs| * (y * y)
  {
    if xs != [] {
      var front, x := xs[..|xs| - 1], xs[|xs| - 1];
      SpreadExpands(front, y);
      SpreadStep(|front|, Sum(front), x, y);
    }
  }

  lemma SpreadStep(n: int, s: int, x: int, y: int)
    ensures (x - y) * (x - y) == x * x - 2 * y * x + y * y
    ensures 2 * y * (s + x) == 2 * y * s + 2 * y * x
    ensures (n + 1) * (y * y) == n * (y * y) + y * y
  {
  }

  /** The sum of the squared differences of all pairs. */
  ghost function PairSpread(xs: seq<nat>): nat {
    if xs == [] then 0 else PairSpread(xs[..|xs| - 1]) + Spread(xs[..|xs| - 1], xs[|xs| - 1])
  }

  /** Lagrange's identity, which gives the Cauchy-Schwarz inequality and its case of equality. */
  lemma {:induction false} LagrangeIdentity(xs: seq<nat>)
    ensures |xs| * SumSquares(xs) - Sum(xs) * Sum(xs) == PairSpread(xs)
  {
    if xs != [] {
      var front, x := xs[..|xs| - 1], xs[|xs| - 1];
      LagrangeIdentity(front);
      SpreadExpands(front, x);
      LagrangeStep(|front|, SumSquares(front), Sum(front), x);
    }
  }

  lemma LagrangeStep(n: int, q: int, s: int, x: int)
    ensures (n + 1) * (q + x * x) - (s + x) * (s + x) == (n * q - s * s) + (q - 2 * x * s + n * (x * x))
  {
    assert (n + 1) * (q + x * x) == n * q + n * (x * x) + q + x * x;
    assert (s + x) * (s + x) == s * s + 2 * x * s + x * x;
  }

  ghost predicate AllEqual(xs: seq<nat>) {
    forall i, j :: 0 <= i < j < |xs| ==> xs[i] == xs[j]
  }

  lemma {:induction false} NoSpread(xs: seq<nat>, y: nat)
    ensures Spread(xs, y) == 0 <==> forall i :: 0 <= i < |xs| ==> xs[i] == y
  {
    if xs != [] {
      var front := xs[..|xs| - 1];
      NoSpread(front, y);
      assert forall i :: 0 <= i < |front| ==> front[i] == xs[i];
    }
  }

  lemma {:induction false} NoPairSpread(xs: seq<nat>)
    ensures PairSpread(xs) == 0 <==> AllEqual(xs)
  {
    if xs != [] {
      var front := xs[..|xs| - 1];
      NoPairSpread(front);
      NoSpread(front, xs[|xs| - 1]);
      assert forall i :: 0 <= i < |front| ==> front[i] == xs[i];
      if AllEqual(xs) {
        assert forall i :: 0 <= i < |front| ==> xs[i] == xs[|xs| - 1];
      }
      if PairSpread(xs) == 0 {
        assert forall i :: 0 <= i < |front| ==> front[i] == xs[|xs| - 1];
      }
    }
  }

  /** At most one counter is not zero. */
  ghost predicate OneFlowOnly(xs: seq<nat>) {
    forall i, j :: 0 <= i < j < |xs| ==> xs[i] == 0 || xs[j] == 0
  }

  lemma {:induction false} SumIsZero(xs: seq<nat>)
    ensures Sum(xs) == 0 <==> forall i :: 0 <= i < |xs| ==> xs[i] == 0
    ensures SumSquares(xs) == 0 <==> forall i :: 0 <= i < |xs| ==> xs[i] == 0
  {
    if xs != [] {
      var front := xs[..|xs| - 1];
      SumIsZero(front);
      SquareIsPositive(xs[|xs| - 1]);
      assert forall i :: 0 <= i < |front| ==> front[i] == xs[i];
    }
  }

  /** The square of the sum exceeds the sum of the squares by the products of all pairs. */
  lemma {:induction false} SquareOfSum(xs: seq<nat>)
    ensures SumSquares(xs) <= Sum(xs) * Sum(xs)
    ensures SumSquares(xs) == Sum(xs) * Sum(xs) <==> OneFlowOnly(xs)
  {
    if xs != [] {
      var front, x := xs[..|xs| - 1], xs[|xs| - 1];
      SquareOfSum(front);
      SumIsZero(front);
      assert forall i :: 0 <= i < |front| ==> front[i] == xs[i];
      SquareOfSumStep(Sum(front), x);
      assert OneFlowOnly(xs) <==> OneFlowOnly(front) && (x == 0 || Sum(front) == 0);
    }
  }

  lemma SquareOfSumStep(s: nat, x: nat)
    ensures (s + x) * (s + x) >= s * s + x * x
    ensures (s + x) * (s + x) == s * s + x * x <==> s == 0 || x == 0
  {
    assert (s + x) * (s + x) == s * s + x * x + 2 * (s * x);
    assert s * x == 0 <==> s == 0 || x == 0;
  }

  /** The bounds of Jain's index, and when they are reached: 1/n for a single flow, 1 for equal flows. */
  lemma FairnessBounds(xs: seq<nat>)
    ensures SumSquares(xs) <= Sum(xs) * Sum(xs) <= |xs| * SumSquares(xs)
    ensures Sum(xs) * Sum(xs) == |xs| * SumSquares(xs) <==> AllEqual(xs)
    ensures SumSquares(xs) == Sum(xs) * Sum(xs) <==> OneFlowOnly(xs)
  {
    LagrangeIdentity(xs);
    NoPairSpread(xs);
    SquareOfSum(xs);
  }

  // ---------------------------------------------------------------------------------------------
  // No wrap-around
  // ---------------------------------------------------------------------------------------------

  lemma {:induction false} PrefixSums(xs: seq<nat>, i: nat)
    requires i <= |xs|
    ensures Sum(xs[..i]) <= Sum(xs) && SumSquares(xs[..i]) <= SumSquares(xs)
    ensures i < |xs| ==> xs[i] * xs[i] <= SumSquares(xs)
  {
    if i == |xs| {
      assert xs[..i] == xs;
    } else {
      var front := xs[..|xs| - 1];
      SquareIsPositive(xs[|xs| - 1]);
      if i < |front| {
        PrefixSums(front, i);
      }
      assert front[..i] == xs[..i];
      SquaresNotNegative(front);
    }
  }

  lemma SquaresNotNegative(xs: seq<nat>)
    ensures SumSquares(xs) >= 0
  {
  }

  /** Every value the program computes for the index fits in 64 bits. */
  ghost predicate NothingWraps(xs: seq<nat>) {
    && (forall i :: 0 <= i <= |xs| ==> Sum(xs[..i]) < TWO_TO_THE_64 && SumSquares(xs[..i]) < TWO_TO_THE_64)
    && (forall i :: 0 <= i < |xs| ==> xs[i] * xs[i] < TWO_TO_THE_64)
    && Sum(xs) * Sum(xs) < TWO_TO_THE_64
    && |xs| * SumSquares(xs) < TWO_TO_THE_64
  }

  /** Exactly when: the denominator is the largest of them. */
  lemma NothingWrapsExactly(xs: seq<nat>)
    ensures NothingWraps(xs) <==> |xs| * SumSquares(xs) < TWO_TO_THE_64
  {
    if |xs| * SumSquares(xs) < TWO_TO_THE_64 {
      FairnessBounds(xs);
      SumBelowItsSquare(Sum(xs));
      forall i | 0 <= i <= |xs|
        ensures Sum(xs[..i]) < TWO_TO_THE_64 && SumSquares(xs[..i]) < TWO_TO_THE_64
        ensures i < |xs| ==> xs[i] * xs[i] < TWO_TO_THE_64
      {
        PrefixSums(xs, i);
      }
    }
  }

  lemma SumBelowItsSquare(s: nat)
    ensures s <= s * s
  {
  }

  // ---------------------------------------------------------------------------------------------
  // The program
  // ---------------------------------------------------------------------------------------------

  /** `InitializeCounters`, for one group of flows. */
  method InitializeCounters(counters: array<nat>)
    modifies counters
    ensures forall i :: 0 <= i < counters.Length ==> counters[i] == 0
  {
    for i := 0 to counters.Length
      invariant forall j :: 0 <= j < i ==> counters[j] == 0
    {
      counters[i] := 0;
    }
  }

  /** `TraceS1R1Sink` and its siblings: only the counter of that flow moves. */
  method TraceSink(counters: array<nat>, index: nat, size: nat)
    requires index < counters.Length
    modifies counters
    ensures counters[..] == old(counters[..])[index := Wrap(old(counters[index]) + size)]
  {
    counters[index] := Wrap(counters[index] + size);
  }

  datatype Index = Undefined | Index(value: real)

  function Quotient(top: nat, bottom: nat): Index {
    if bottom == 0 then Undefined else Index(top as real / bottom as real)
  }

  /** Jain's index in exact arithmetic. */
  function Jain(xs: seq<nat>): Index {
    Quotient(Sum(xs) * Sum(xs), |xs| * SumSquares(xs))
  }

  /** The loop and the division of `PrintFairness`, for one group of flows: for every input the quotient
      of the two numbers modulo 2^64, which is Jain's index if and only if they are undistorted, and so in
      particular if nothing wraps. */
  method PrintFairness(counters: array<nat>) returns (fairness: Index)
    ensures var xs := counters[..];
            fairness == Quotient(Wrap(Sum(xs) * Sum(xs)), Wrap(|xs| * SumSquares(xs)))
    ensures var xs := counters[..];
            fairness == Jain(xs) <==> Undistorted(Sum(xs) * Sum(xs), |xs| * SumSquares(xs))
    ensures NothingWraps(counters[..]) ==> fairness == Jain(counters[..])
  {
    ghost var xs := counters[..];
    var sumSquares, sum := 0, 0;
    for i := 0 to counters.Length
      invariant sum == Wrap(Sum(xs[..i])) && sumSquares == Wrap(SumSquares(xs[..i]))
    {
      assert xs[..i + 1][..i] == xs[..i];
      WrapSum(Sum(xs[..i]), xs[i]);
      WrapSum(SumSquares(xs[..i]), xs[i] * xs[i]);
      sum := Wrap(sum + counters[i]);
      sumSquares := Wrap(sumSquares + Wrap(counters[i] * counters[i]));
    }
    assert xs[..counters.Length] == xs;
    WrapProduct(Sum(xs), Sum(xs));
    WrapProduct(counters.Length, SumSquares(xs));
    PrintedExactly(xs);
    fairness := Quotient(Wrap(sum * sum), Wrap(counters.Length * sumSquares));
  }

  lemma {:induction false} WrapShift(x: nat, k: nat)
    ensures Wrap(TWO_TO_THE_64 * k + x) == Wrap(x)
  {
    if k > 0 {
      WrapShift(x, k - 1);
    }
  }

  lemma WrapSum(a: nat, b: nat)
    ensures Wrap(Wrap(a) + b) == Wrap(a + b) && Wrap(Wrap(a) + Wrap(b)) == Wrap(a + b)
  {
  }

  /** Wrapping the factors first, or only one of them, makes no difference. */
  lemma WrapProduct(a: nat, b: nat)
    ensures Wrap(a * Wrap(b)) == Wrap(a * b) && Wrap(Wrap(a) * Wrap(b)) == Wrap(a * b)
  {
    WrapFactor(a, b);
    WrapFactor(Wrap(b), a);
    assert Wrap(a) * Wrap(b) == Wrap(b) * Wrap(a) && Wrap(b) * a == a * Wrap(b);
  }

  lemma WrapFactor(a: nat, b: nat)
    ensures Wrap(a * Wrap(b)) == Wrap(a * b)
  {
    var k, r := b / TWO_TO_THE_64, b % TWO_TO_THE_64;
    assert b == TWO_TO_THE_64 * k + r;
    assert a * b == TWO_TO_THE_64 * (a * k) + a * r;
    WrapShift(a * r, a * k);
  }

  /** The index of any counters: undefined without traffic, else from 1/n, for a single flow, to 1, for
      equal flows. */
  lemma JainBounds(xs: seq<nat>)
    ensures Jain(xs).Undefined? <==> forall i :: 0 <= i < |xs| ==> xs[i] == 0
    ensures Jain(xs).Index? ==> xs != [] && 1.0 / |xs| as real <= Jain(xs).value <= 1.0
    ensures Jain(xs).Index? ==> (Jain(xs).value == 1.0 <==> AllEqual(xs))
    ensures Jain(xs).Index? ==> (Jain(xs).value == 1.0 / |xs| as real <==> OneFlowOnly(xs))
  {
    FairnessBounds(xs);
    SumIsZero(xs);
    var n, q := |xs|, SumSquares(xs);
    ZeroProduct(n, q);
    if xs != [] && q != 0 {
      IndexBounds(n, q, Sum(xs) * Sum(xs), n * q);
    }
  }

  lemma ZeroProduct(n: nat, q: nat)
    ensures n * q == 0 <==> n == 0 || q == 0
  {
  }

  lemma IndexBounds(n: nat, q: nat, top: nat, bottom: nat)
    requires n > 0 && q > 0 && bottom == n * q && q <= top <= bottom
    ensures bottom > 0
    ensures 1.0 / n as real <= top as real / bottom as real <= 1.0
    ensures top as real / bottom as real == 1.0 <==> top == bottom
    ensures top as real / bottom as real == 1.0 / n as real <==> top == q
  {
    ZeroProduct(n, q);
    var x, y, t, b := n as real, q as real, top as real, bottom as real;
    assert b == x * y;
    RealBounds(x, y, t, b);
  }

  lemma RealBounds(x: real, y: real, t: real, b: real)
    requires x > 0.0 && y > 0.0 && b == x * y && b > 0.0 && y <= t <= b
    ensures 1.0 / x <= t / b <= 1.0
    ensures t / b == 1.0 <==> t == b
    ensures t / b == 1.0 / x <==> t == y
  {
    var i, j := 1.0 / x, t / b;
    assert i * x == 1.0 && j * b == t;
    assert y == i * b by {
      assert i * b == i * (x * y) == (i * x) * y;
    }
    if j < i {
      Scale(j, i, b);
    }
    if j > 1.0 {
      Scale(1.0, j, b);
    }
  }

  lemma Scale(p: real, q: real, b: real)
    requires p < q && b > 0.0
    ensures p * b < q * b
  {
  }

  // ---------------------------------------------------------------------------------------------
  // When the printed index is Jain's index
  // ---------------------------------------------------------------------------------------------

  /** What PrintFairness shows. */
  ghost function Printed(xs: seq<nat>): Index {
    Quotient(Wrap(Sum(xs) * Sum(xs)), Wrap(|xs| * SumSquares(xs)))
  }

  /** The condition on numerator and denominator: no traffic, or a denominator that does not vanish and
      what is left of the two in 64 bits in the proportion of what is lost. */
  ghost predicate Undistorted(top: nat, bottom: nat) {
    bottom == 0
    || (Wrap(bottom) != 0 && Wrap(top) * (bottom / TWO_TO_THE_64) == (top / TWO_TO_THE_64) * Wrap(bottom))
  }

  /** Exactly when the program prints Jain's index. */
  lemma PrintedExactly(xs: seq<nat>)
    ensures Printed(xs) == Jain(xs) <==> Undistorted(Sum(xs) * Sum(xs), |xs| * SumSquares(xs))
  {
    FairnessBounds(xs);
    QuotientExactly(Sum(xs) * Sum(xs), |xs| * SumSquares(xs));
  }

  /** As long as the square of the sum fits, the denominator has to fit as well. */
  lemma PrintedExactlyBelow(xs: seq<nat>)
    requires Sum(xs) * Sum(xs) < TWO_TO_THE_64
    ensures Printed(xs) == Jain(xs) <==> |xs| * SumSquares(xs) < TWO_TO_THE_64
  {
    FairnessBounds(xs);
    PrintedExactly(xs);
    var top, bottom := Sum(xs) * Sum(xs), |xs| * SumSquares(xs);
    ZeroTop(xs);
    UndistortedBelow(top, bottom);
  }

  lemma ZeroTop(xs: seq<nat>)
    ensures Sum(xs) * Sum(xs) == 0 ==> |xs| * SumSquares(xs) == 0
  {
    SumIsZero(xs);
    ZeroProduct(Sum(xs), Sum(xs));
    ZeroProduct(|xs|, SumSquares(xs));
  }

  lemma UndistortedBelow(top: nat, bottom: nat)
    requires top < TWO_TO_THE_64 && (top == 0 ==> bottom == 0)
    ensures Undistorted(top, bottom) <==> bottom < TWO_TO_THE_64
  {
    ZeroProduct(top, bottom / TWO_TO_THE_64);
  }

  lemma QuotientExactly(top: nat, bottom: nat)
    requires top <= bottom
    ensures Quotient(Wrap(top), Wrap(bottom)) == Quotient(top, bottom) <==> Undistorted(top, bottom)
  {
    if bottom != 0 && Wrap(bottom) != 0 {
      CrossMultiply(Wrap(top), Wrap(bottom), top, bottom);
      Halves(top / TWO_TO_THE_64, Wrap(top), bottom / TWO_TO_THE_64, Wrap(bottom), top, bottom);
    }
  }

  lemma CrossMultiply(a: nat, b: nat, c: nat, d: nat)
    requires b > 0 && d > 0
    ensures a as real / b as real == c as real / d as real <==> a * d == c * b
  {
    RealCrossMultiply(a as real, b as real, c as real, d as real);
    assert (a * d) as real == a as real * d as real;
    assert (c * b) as real == c as real * b as real;
  }

  lemma RealCrossMultiply(a: real, b: real, c: real, d: real)
    requires b > 0.0 && d > 0.0
    ensures a / b == c / d <==> a * d == c * b
  {
    var p, q := a / b, c / d;
    assert p * b == a && q * d == c;
    assert a * d == p * (b * d);
    assert c * b == q * (b * d);
    assert b * d > 0.0;
    if p < q {
      Scale(p, q, b * d);
    } else if q < p {
      Scale(q, p, b * d);
    }
  }

  lemma Halves(ah: nat, al: nat, bh: nat, bl: nat, a: nat, b: nat)
    requires a == TWO_TO_THE_64 * ah + al && b == TWO_TO_THE_64 * bh + bl
    ensures al * b == a * bl <==> al * bh == ah * bl
  {
    assert al * b == TWO_TO_THE_64 * (al * bh) + al * bl;
    assert a * bl == TWO_TO_THE_64 * (ah * bl) + al * bl;
  }

  /** One flow with that many bytes and n - 1 flows without traffic. */
  ghost function OneFlow(bytes: nat, n: nat): (xs: seq<nat>)
    requires n > 0
    ensures |xs| == n && xs[0] == bytes
  {
    if n == 1 then [bytes] else OneFlow(bytes, n - 1) + [0]
  }

  lemma {:induction false} OneFlowSums(bytes: nat, n: nat)
    requires n > 0
    ensures Sum(OneFlow(bytes, n)) == bytes && SumSquares(OneFlow(bytes, n)) == bytes * bytes
  {
    var xs := OneFlow(bytes, n);
    if n == 1 {
      assert xs[..0] == [];
    } else {
      OneFlowSums(bytes, n - 1);
      assert xs[..n - 1] == OneFlow(bytes, n - 1);
    }
  }

  /** Groups of 10 and of 20 flows beyond the bound.  A single flow of 2^32 bytes makes both numbers vanish,
      so that the program divides zero by zero; one of 2^31 bytes makes it show an index five times too large
      for 10 flows, and divide by zero for 20. */
  lemma WrappedIndex()
    ensures Jain(OneFlow(0x1_0000_0000, 10)) == Index(0.1) && Printed(OneFlow(0x1_0000_0000, 10)) == Undefined
    ensures Jain(OneFlow(0x1_0000_0000, 20)) == Index(0.05) && Printed(OneFlow(0x1_0000_0000, 20)) == Undefined
    ensures Jain(OneFlow(0x8000_0000, 10)) == Index(0.1) && Printed(OneFlow(0x8000_0000, 10)) == Index(0.5)
    ensures Jain(OneFlow(0x8000_0000, 20)) == Index(0.05) && Printed(OneFlow(0x8000_0000, 20)) == Undefined
  {
    OneFlowSums(0x1_0000_0000, 10);
    OneFlowSums(0x1_0000_0000, 20);
    OneFlowSums(0x8000_0000, 10);
    OneFlowSums(0x8000_0000, 20);
  }
}
