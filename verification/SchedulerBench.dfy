/** The scheduler benchmark of utils/bench-scheduler.cc: the event loop `Bench::Run` and `Bench::Cb`, and
    the online statistics of `BenchSuite::Log`. */
module SchedulerBench {

  // ---------------------------------------------------------------------------------------------
  // The event loop
  // ---------------------------------------------------------------------------------------------

  ghost predicate Sorted(s: seq<int>) {
    forall i, j :: 0 <= i < j < |s| ==> s[i] <= s[j]
  }

  ghost predicate InTimeOrder(fired: seq<int>, now: int, pending: seq<int>) {
    && Sorted(fired)
    && (forall i :: 0 <= i < |fired| ==> fired[i] <= now)
    && (forall j :: 0 <= j < |pending| ==> now <= pending[j])
  }

  method EarliestIndex(pending: seq<int>) returns (k: nat)
    requires pending != []
    ensures k < |pending| && forall j :: 0 <= j < |pending| ==> pending[k] <= pending[j]
  {
    k := 0;
    for i := 1 to |pending|
      invariant 0 <= k < |pending|
      invariant forall j :: 0 <= j < i ==> pending[k] <= pending[j]
    {
      if pending[i] < pending[k] {
        k := i;
      }
    }
  }

  function Without(s: seq<int>, k: nat): (r: seq<int>)
    requires k < |s|
    ensures multiset(s) == multiset(r) + multiset{s[k]} && |r| == |s| - 1
    ensures forall j :: 0 <= j < |r| ==> r[j] in s
  {
    assert s == s[..k] + [s[k]] + s[k + 1..];
    s[..k] + s[k + 1..]
  }

  /** The part of the simulator the benchmark uses: pending event times, the clock and the stop flag.
      All events are calls of the same Cb, so an event is its time.  fired, scheduled and populations are
      history; populations[i] is how many events were pending when the i-th of them fired. */
  class Simulator {
    var pending: seq<int>
    var now: int
    var stop: bool
    ghost var fired: seq<int>
    ghost var scheduled: multiset<int>
    ghost var populations: seq<nat>

    /** Every event scheduled was fired or is pending; events fire in time order; none was overtaken. */
    ghost predicate Valid()
      reads this
    {
      && scheduled == multiset(fired) + multiset(pending) && InTimeOrder(fired, now, pending)
      && |populations| == |fired|
    }

    constructor ()
      ensures Valid() && pending == [] && now == 0 && !stop && fired == [] && scheduled == multiset{}
      ensures populations == []
    {
      pending, now, stop, fired, scheduled, populations := [], 0, false, [], multiset{}, [];
    }

    method Schedule(delay: nat)
      requires Valid()
      modifies this`pending, this`scheduled
      ensures Valid() && pending == old(pending) + [now + delay]
      ensures scheduled == old(scheduled) + multiset{now + delay}
    {
      pending := pending + [now + delay];
      scheduled := scheduled + multiset{now + delay};
    }

    /** Removes a next event and moves the clock to it. */
    method RemoveNext()
      requires Valid() && pending != []
      modifies this`pending, this`now, this`fired, this`populations
      ensures Valid() && |pending| == |old(pending)| - 1
      ensures fired == old(fired) + [now] && now >= old(now)
      ensures populations == old(populations) + [|old(pending)|]
    {
      var k := EarliestIndex(pending);
      FireKeepsOrder(fired, now, pending, k);
      assert multiset(fired + [pending[k]]) == multiset(fired) + multiset{pending[k]};
      populations := populations + [|pending|];
      now := pending[k];
      pending := Without(pending, k);
      fired := fired + [now];
    }
  }

  lemma FireKeepsOrder(fired: seq<int>, now: int, pending: seq<int>, k: nat)
    requires InTimeOrder(fired, now, pending)
    requires k < |pending| && forall j :: 0 <= j < |pending| ==> pending[k] <= pending[j]
    ensures InTimeOrder(fired + [pending[k]], pending[k], Without(pending, k))
  {
    forall j | 0 <= j < |Without(pending, k)| ensures pending[k] <= Without(pending, k)[j] {
      assert Without(pending, k)[j] in pending;
    }
  }

  /** When the event of the k-th draw is due: the first ones count from the start, each later one from the
      firing that scheduled it. */
  ghost function DueTime(delays: nat -> nat, population: nat, fired: seq<int>, k: nat): int
    requires k < population + |fired|
  {
    if k < population then delays(k) else fired[k - population] + delays(k)
  }

  /** The events of the first n draws. */
  ghost function Due(delays: nat -> nat, population: nat, fired: seq<int>, n: nat): multiset<int>
    requires n <= population + |fired|
  {
    if n == 0 then multiset{}
    else Due(delays, population, fired, n - 1) + multiset{DueTime(delays, population, fired, n - 1)}
  }

  /** due lists the events of all draws but those that a later firing would have made: the first ones count
      from the start, each later one from the firing that scheduled it; the last firing has scheduled none. */
  ghost predicate IsDue(delays: nat -> nat, population: nat, fired: seq<int>, due: seq<int>) {
    && |due| == population + |fired| - 1
    && forall k :: 0 <= k < |due| ==> due[k] == if k < population then delays(k) else fired[k - population] + delays(k)
  }

  ghost function DueSeq(delays: nat -> nat, population: nat, fired: seq<int>, n: nat): (due: seq<int>)
    requires n <= population + |fired|
    ensures |due| == n && forall k :: 0 <= k < n ==> due[k] == DueTime(delays, population, fired, k)
  {
    seq(n, k requires 0 <= k < n => DueTime(delays, population, fired, k))
  }

  lemma {:induction false} DueSeqIsDue(delays: nat -> nat, population: nat, fired: seq<int>, n: nat)
    requires n <= population + |fired|
    ensures multiset(DueSeq(delays, population, fired, n)) == Due(delays, population, fired, n)
  {
    if n > 0 {
      DueSeqIsDue(delays, population, fired, n - 1);
      hide DueTime;
      assert DueSeq(delays, population, fired, n)
          == DueSeq(delays, population, fired, n - 1) + [DueTime(delays, population, fired, n - 1)];
    }
  }

  lemma DueList(delays: nat -> nat, population: nat, fired: seq<int>, n: nat) returns (due: seq<int>)
    requires n <= population + |fired|
    ensures multiset(due) == Due(delays, population, fired, n)
    ensures n == population + |fired| - 1 ==> IsDue(delays, population, fired, due)
  {
    due := DueSeq(delays, population, fired, n);
    DueSeqIsDue(delays, population, fired, n);
    hide Due;
  }

  lemma Ordered(fired: seq<int>, now: int, pending: seq<int>)
    requires InTimeOrder(fired, now, pending)
    ensures forall i, j :: 0 <= i < j < |fired| ==> fired[i] <= fired[j]
    ensures forall i, j :: 0 <= i < |fired| && 0 <= j < |pending| ==> fired[i] <= pending[j]
  {
  }

  lemma AreAll(counts: seq<nat>, n: nat)
    requires AllAre(counts, n)
    ensures forall i :: 0 <= i < |counts| ==> counts[i] == n
  {
  }

  lemma {:induction false} DueIgnoresLaterFirings(delays: nat -> nat, population: nat, fired: seq<int>, more: seq<int>, n: nat)
    requires n <= population + |fired|
    ensures Due(delays, population, fired + more, n) == Due(delays, population, fired, n)
  {
    if n > 0 {
      DueIgnoresLaterFirings(delays, population, fired, more, n - 1);
    }
  }

  lemma DueFirst(delays: nat -> nat, population: nat, n: nat)
    requires n <= population
    ensures n == 0 ==> Due(delays, population, [], n) == multiset{}
    ensures n < population ==> Due(delays, population, [], n + 1) == Due(delays, population, [], n) + multiset{delays(n)}
  {
  }

  lemma NextDue(delays: nat -> nat, population: nat, fired: seq<int>, now: int, n: nat)
    requires n == population + |fired|
    ensures Due(delays, population, fired + [now], n) == Due(delays, population, fired, n)
    ensures Due(delays, population, fired + [now], n + 1)
         == Due(delays, population, fired, n) + multiset{now + delays(n)}
  {
    DueIgnoresLaterFirings(delays, population, fired, [now], n);
    assert DueTime(delays, population, fired + [now], n) == now + delays(n);
  }

  ghost predicate AllAre(counts: seq<nat>, n: nat) {
    forall i :: 0 <= i < |counts| ==> counts[i] == n
  }

  lemma NoneAre(n: nat)
    ensures AllAre([], n)
  {
  }

  lemma OneMore(counts: seq<nat>, n: nat)
    requires AllAre(counts, n)
    ensures AllAre(counts + [n], n)
  {
  }

  datatype Result = Result(pop: nat, events: nat)

  class Bench {
    var population: nat
    var total: nat
    var count: nat

    constructor (population: nat, total: nat)
      ensures this.population == population && this.total == total && count == 0
    {
      this.population, this.total, count := population, total, 0;
    }

    /** The event function. */
    method Cb(sim: Simulator, delay: nat)
      requires sim.Valid()
      modifies this`count, sim`pending, sim`scheduled, sim`stop
      ensures sim.Valid()
      ensures if old(count) >= total then
                sim.stop && count == old(count) && sim.pending == old(sim.pending) && sim.scheduled == old(sim.scheduled)
              else
                && sim.stop == old(sim.stop) && count == old(count) + 1
                && sim.pending == old(sim.pending) + [sim.now + delay]
                && sim.scheduled == old(sim.scheduled) + multiset{sim.now + delay}
    {
      if count >= total {
        sim.stop := true;
        return;
      }
      sim.Schedule(delay);
      count := count + 1;
    }

    /** `ProcessOneEvent` of the simulator: fires a next event, which is a call of Cb. */
    method ProcessOneEvent(sim: Simulator, delay: nat) returns (drawn: bool)
      requires sim.Valid() && sim.pending != [] && !sim.stop
      modifies this`count, sim
      ensures sim.Valid() && sim.fired == old(sim.fired) + [sim.now] && drawn == (old(count) < total)
      ensures sim.populations == old(sim.populations) + [|old(sim.pending)|]
      ensures drawn ==> sim.scheduled == old(sim.scheduled) + multiset{sim.now + delay}
      ensures !drawn ==> sim.scheduled == old(sim.scheduled)
      ensures sim.stop == !drawn && count == old(count) + (if drawn then 1 else 0)
      ensures |sim.pending| == old(|sim.pending|) - (if drawn then 0 else 1)
    {
      sim.RemoveNext();
      drawn := count < total;
      Cb(sim, delay);
    }

    /** The state between events.  The population is constant until the stop, and draws counts the values
        taken from the random stream. */
    ghost predicate Running(delays: nat -> nat, sim: Simulator, draws: nat)
      reads this, sim
    {
      && count <= total && draws == population + count
      && AllAre(sim.populations, population)
      && (if sim.stop then population > 0 && |sim.pending| == population - 1 && count == total && |sim.fired| == total + 1
          else |sim.pending| == population && |sim.fired| == count)
      && sim.scheduled == Due(delays, population, sim.fired, draws)
    }

    /** One run.  delays(k) is the k-th value the random stream yields.  Whenever an event fires as many are
        pending as at the start.  A run with events stops after exactly total + 1 of them, which are, in time
        order, the earliest of all that were due. */
    method Run(delays: nat -> nat) returns (r: Result, sim: Simulator, draws: nat)
      modifies this`count
      ensures fresh(sim) && sim.Valid()
      ensures |sim.populations| == |sim.fired| && AllAre(sim.populations, population)
      ensures r == Result(population, count)
      ensures population == 0 ==> count == 0 && sim.fired == [] && draws == 0
      ensures population > 0 ==>
                && count == total && |sim.fired| == total + 1 && sim.stop
                && |sim.pending| == population - 1
                && draws == population + total
                && sim.scheduled == Due(delays, population, sim.fired, draws)
      ensures forall i :: 0 <= i < |sim.populations| ==> sim.populations[i] == population
      ensures forall i, j :: 0 <= i < j < |sim.fired| ==> sim.fired[i] <= sim.fired[j]
      ensures forall i, j :: 0 <= i < |sim.fired| && 0 <= j < |sim.pending| ==> sim.fired[i] <= sim.pending[j]
      ensures population > 0 ==>
                exists due: seq<int> :: IsDue(delays, population, sim.fired, due)
                  && multiset(due) == multiset(sim.fired) + multiset(sim.pending)
    {
      hide AllAre, Due, IsDue;
      count := 0;
      sim := Populate(delays);
      NoneAre(population);
      draws := population;
      while sim.pending != [] && !sim.stop
        invariant sim.Valid() && fresh(sim) && Running(delays, sim, draws)
        invariant population == 0 ==> count == 0 && sim.fired == []
        decreases !sim.stop, total - count
      {
        draws := Turn(delays, sim, draws);
      }
      r := Result(population, count);
      Ordered(sim.fired, sim.now, sim.pending);
      AreAll(sim.populations, population);
      ghost var due := DueList(delays, population, sim.fired, draws);
    }

    /** One turn of the simulator's loop. */
    method Turn(delays: nat -> nat, sim: Simulator, draws: nat) returns (next: nat)
      requires sim.Valid() && sim.pending != [] && !sim.stop && Running(delays, sim, draws)
      modifies this`count, sim
      ensures sim.Valid() && Running(delays, sim, next)
      ensures sim.stop || count == old(count) + 1
    {
      hide Simulator.Valid, Due, AllAre;
      ghost var before := sim.fired;
      OneMore(sim.populations, population);
      var drawn := ProcessOneEvent(sim, delays(draws));
      NextDue(delays, population, before, sim.now, draws);
      next := if drawn then draws + 1 else draws;
    }

    /** The first loop of Run. */
    method Populate(delays: nat -> nat) returns (sim: Simulator)
      ensures fresh(sim) && sim.Valid() && |sim.pending| == population && sim.fired == [] && !sim.stop
      ensures sim.populations == [] && sim.scheduled == Due(delays, population, [], population)
    {
      hide Simulator.Valid, Due;
      sim := new Simulator();
      DueFirst(delays, population, 0);
      for i := 0 to population
        invariant fresh(sim) && sim.Valid() && |sim.pending| == i && sim.fired == [] && sim.now == 0 && !sim.stop
        invariant sim.populations == []
        invariant sim.scheduled == Due(delays, population, [], i)
      {
        DueFirst(delays, population, i);
        sim.Schedule(delays(i));
      }
    }
  }

  // ---------------------------------------------------------------------------------------------
  // The statistics
  // ---------------------------------------------------------------------------------------------

  function Sum(xs: seq<real>): real {
    if xs == [] then 0.0 else Sum(xs[..|xs| - 1]) + xs[|xs| - 1]
  }

  function Mean(xs: seq<real>): real
    requires xs != []
  {
    Sum(xs) / |xs| as real
  }

  /** The sum of the squared deviations of the samples from m. */
  function Deviations(xs: seq<real>, m: real): real {
    if xs == [] then 0.0
    else Deviations(xs[..|xs| - 1], m) + (xs[|xs| - 1] - m) * (xs[|xs| - 1] - m)
  }

  // The arithmetic lemmas below name every product, which keeps their proofs linear.

  /** n times q, by addition. */
  ghost function Times(n: nat, q: real): real {
    if n == 0 then 0.0 else Times(n - 1, q) + q
  }

  lemma {:induction false} TimesIsProduct(n: nat, q: real)
    ensures Times(n, q) == n as real * q
  {
    if n > 0 {
      TimesIsProduct(n - 1, q);
      assert n as real == (n - 1) as real + 1.0;
      assert n as real * q == (n - 1) as real * q + q;
    }
  }

  lemma {:induction false} TimesIsPositive(n: nat, q: real)
    requires q > 0.0
    ensures n > 0 ==> Times(n, q) > 0.0
  {
    if n > 1 {
      TimesIsPositive(n - 1, q);
    }
  }

  /** The sum of d times the distances of the samples from k. */
  ghost function Cross(xs: seq<real>, k: real, d: real): real {
    if xs == [] then 0.0 else Cross(xs[..|xs| - 1], k, d) + d * (xs[|xs| - 1] - k)
  }

  lemma {:induction false} CrossIsProduct(xs: seq<real>, k: real, d: real)
    ensures Cross(xs, k, d) == d * (Sum(xs) - Times(|xs|, k))
  {
    if xs != [] {
      var front, x := xs[..|xs| - 1], xs[|xs| - 1];
      CrossIsProduct(front, k, d);
      Distribute(d, Sum(front) - Times(|front|, k), x - k, Sum(xs) - Times(|xs|, k));
    }
  }

  lemma Distribute(d: real, s: real, t: real, u: real)
    requires u == s + t
    ensures d * u == d * s + d * t
  {
  }

  /** Moving the reference point: the deviations from m are those from k, less a term that is linear in
      m - k, and one that is quadratic. */
  lemma {:induction false} DeviationsShift(xs: seq<real>, k: real, m: real, q: real)
    requires q == (m - k) * (m - k)
    ensures Deviations(xs, m) == Deviations(xs, k) - 2.0 * Cross(xs, k, m - k) + Times(|xs|, q)
  {
    if xs != [] {
      DeviationsShift(xs[..|xs| - 1], k, m, q);
      ShiftOne(xs[|xs| - 1], k, m, q);
    }
  }

  lemma ShiftOne(x: real, k: real, m: real, q: real)
    requires q == (m - k) * (m - k)
    ensures (x - m) * (x - m) == (x - k) * (x - k) - 2.0 * ((m - k) * (x - k)) + q
  {
  }

  lemma {:induction false} DeviationsNotNegative(xs: seq<real>, m: real)
    ensures Deviations(xs, m) >= 0.0
  {
    if xs != [] {
      DeviationsNotNegative(xs[..|xs| - 1], m);
      var d := xs[|xs| - 1] - m;
      Square(d, d * d);
    }
  }

  lemma Product(a: real, b: real, p: real)
    requires a > 0.0 && b > 0.0 && p == a * b
    ensures p > 0.0
  {
  }

  lemma Square(x: real, q: real)
    requires q == x * x
    ensures q >= 0.0 && (q == 0.0 <==> x == 0.0)
  {
    if x > 0.0 {
      Product(x, x, q);
    } else if x < 0.0 {
      Product(-x, -x, q);
    }
  }

  ghost predicate IsMean(xs: seq<real>, a: real) {
    Times(|xs|, a) == Sum(xs)
  }

  lemma MeanIsMean(xs: seq<real>)
    requires xs != []
    ensures IsMean(xs, Mean(xs))
  {
    TimesIsProduct(|xs|, Mean(xs));
  }

  /** The deviations from the mean: the term in m - a loses its linear part there. */
  lemma DeviationsFromMean(xs: seq<real>, a: real, m: real, q: real)
    requires IsMean(xs, a) && q == (m - a) * (m - a)
    ensures Deviations(xs, m) == Deviations(xs, a) + Times(|xs|, q)
  {
    DeviationsShift(xs, a, m, q);
    CrossIsProduct(xs, a, m - a);
  }

  /** The squared deviations are least from the mean. */
  lemma MeanIsLeastSquares(xs: seq<real>, m: real)
    requires xs != [] && m != Mean(xs)
    ensures Deviations(xs, Mean(xs)) < Deviations(xs, m)
  {
    MeanIsMean(xs);
    LeastSquares(xs, Mean(xs), m, (m - Mean(xs)) * (m - Mean(xs)));
  }

  lemma LeastSquares(xs: seq<real>, a: real, m: real, q: real)
    requires xs != [] && IsMean(xs, a) && m != a && q == (m - a) * (m - a)
    ensures Deviations(xs, a) < Deviations(xs, m)
  {
    DeviationsFromMean(xs, a, m, q);
    Square(m - a, q);
    TimesIsPositive(|xs|, q);
  }

  /** One step of Welford's algorithm: average and 2nd moment after one more sample. */
  function Welford(average: real, moment2: real, x: real, count: nat): (real, real)
    requires count > 0
  {
    var deltaPre := x - average;
    var next := average + deltaPre / count as real;
    var deltaPost := x - next;
    (next, moment2 + deltaPre * deltaPost)
  }

  lemma WelfordStep(xs: seq<real>, a: real, x: real, b: real)
    requires xs != [] && IsMean(xs, a) && IsMean(xs + [x], b)
    ensures Welford(a, Deviations(xs, a), x, |xs| + 1) == (b, Deviations(xs + [x], b))
  {
    var q, r := (b - a) * (b - a), (x - b) * (x - b);
    Append(xs, x, b, r);
    DeviationsFromMean(xs, a, b, q);
    assert Times(|xs|, b) + b == Times(|xs|, a) + x;
    WelfordNumbers(|xs|, a, x, b, Deviations(xs, a), q, r);
  }

  lemma Append(xs: seq<real>, x: real, m: real, r: real)
    requires r == (x - m) * (x - m)
    ensures Sum(xs + [x]) == Sum(xs) + x
    ensures Deviations(xs + [x], m) == Deviations(xs, m) + r
  {
    assert (xs + [x])[..|xs|] == xs;
  }

  lemma WelfordNumbers(n: nat, a: real, x: real, b: real, before: real, q: real, r: real)
    requires n > 0 && Times(n, b) + b == Times(n, a) + x
    requires q == (b - a) * (b - a) && r == (x - b) * (x - b)
    ensures Welford(a, before, x, n + 1) == (b, before + Times(n, q) + r)
  {
    TimesIsProduct(n, a);
    TimesIsProduct(n, b);
    TimesIsProduct(n, q);
    WelfordProducts(n as real, Times(n, a), Times(n, b), Times(n, q), a, x, b, before, q, r, (n + 1) as real);
    WelfordIs(a, before, x, n + 1, b, before + Times(n, q) + r);
  }

  lemma WelfordIs(a: real, before: real, x: real, count: nat, b: real, after: real)
    requires count > 0 && a + (x - a) / count as real == b && before + (x - a) * (x - b) == after
    ensures Welford(a, before, x, count) == (b, after)
  {
    var w := Welford(a, before, x, count);
    assert w.0 == b;
    assert w.1 == before + (x - a) * (x - b);
    assert w.1 == after;
    assert w == (w.0, w.1);
  }

  lemma WelfordProducts(n: real, na: real, nb: real, nq: real,
                        a: real, x: real, b: real, before: real, q: real, r: real, count: real)
    requires n > 0.0 && count == n + 1.0 && na == n * a && nb == n * b && nq == n * q && nb + b == na + x
    requires q == (b - a) * (b - a) && r == (x - b) * (x - b)
    ensures a + (x - a) / count == b && before + (x - a) * (x - b) == before + nq + r
  {
    NextMean(n, a, x, b, q, r);
  }

  lemma NextMean(n: real, a: real, x: real, b: real, q: real, r: real)
    requires n > 0.0 && n * b + b == n * a + x
    requires q == (b - a) * (b - a) && r == (x - b) * (x - b)
    ensures b == a + (x - a) / (n + 1.0)
    ensures (x - a) * (x - b) == n * q + r
  {
    assert (n + 1.0) * (b - a) == x - a;
    assert b - a == (x - a) / (n + 1.0);
    assert x - b == n * (b - a);
    assert (x - a) * (x - b) == (x - b) * (x - b) + (b - a) * (x - b);
    assert (b - a) * (x - b) == (b - a) * (n * (b - a)) == n * ((b - a) * (b - a));
  }

  /** The first turn folds in the sample the average started from, and changes nothing. */
  lemma WelfordStart(x: real)
    ensures Welford(x, 0.0, x, 1) == (x, 0.0)
    ensures Mean([x]) == x && Deviations([x], x) == 0.0
  {
    assert [x][..0] == [];
    assert Sum([x]) == x;
    assert |[x]| as real == 1.0;
    assert Deviations([], x) == 0.0;
  }

  datatype PhaseResult = PhaseResult(time: real, rate: real, period: real)

  datatype RunResult = RunResult(init: PhaseResult, run: PhaseResult)

  datatype Field = InitTime | InitRate | InitPeriod | RunTime | RunRate | RunPeriod

  function Get(r: RunResult, f: Field): real {
    match f
    case InitTime => r.init.time
    case InitRate => r.init.rate
    case InitPeriod => r.init.period
    case RunTime => r.run.time
    case RunRate => r.run.rate
    case RunPeriod => r.run.period
  }

  function Set(r: RunResult, f: Field, v: real): (s: RunResult)
    ensures forall g :: Get(s, g) == if g == f then v else Get(r, g)
  {
    match f
    case InitTime => r.(init := r.init.(time := v))
    case InitRate => r.(init := r.init.(rate := v))
    case InitPeriod => r.(init := r.init.(period := v))
    case RunTime => r.(run := r.run.(time := v))
    case RunRate => r.(run := r.run.(rate := v))
    case RunPeriod => r.(run := r.run.(period := v))
  }

  ghost function Samples(results: seq<RunResult>, f: Field): (r: seq<real>)
    ensures |r| == |results| && forall i :: 0 <= i < |r| ==> r[i] == Get(results[i], f)
  {
    seq(|results|, i requires 0 <= i < |results| => Get(results[i], f))
  }

  /** average and moment2 hold, in every field, the mean of the samples and the sum of the squared
      deviations from that mean. */
  ghost predicate Summarizes(average: RunResult, moment2: RunResult, results: seq<RunResult>)
    requires results != []
  {
    forall f :: Summarized(average, moment2, results, f)
  }

  ghost predicate Summarized(average: RunResult, moment2: RunResult, results: seq<RunResult>, f: Field)
    requires results != []
  {
    && Get(average, f) == Mean(Samples(results, f))
    && Get(moment2, f) == Deviations(Samples(results, f), Mean(Samples(results, f)))
  }

  /** `ACCUMULATE`. */
  method Accumulate(run: RunResult, average: RunResult, moment2: RunResult, f: Field, count: nat)
    returns (nextAverage: RunResult, nextMoment2: RunResult)
    requires count > 0
    ensures (Get(nextAverage, f), Get(nextMoment2, f)) == Welford(Get(average, f), Get(moment2, f), Get(run, f), count)
    ensures forall g :: g != f ==> Get(nextAverage, g) == Get(average, g) && Get(nextMoment2, g) == Get(moment2, g)
  {
    var deltaPre := Get(run, f) - Get(average, f);
    nextAverage := Set(average, f, Get(average, f) + deltaPre / count as real);
    var deltaPost := Get(run, f) - Get(nextAverage, f);
    nextMoment2 := Set(moment2, f, Get(moment2, f) + deltaPre * deltaPost);
    var w := Welford(Get(average, f), Get(moment2, f), Get(run, f), count);
    assert w.0 == Get(nextAverage, f);
    assert w.1 == Get(moment2, f) + deltaPre * deltaPost;
  }

  /** The six uses of `ACCUMULATE` in one turn. */
  method AccumulateAll(run: RunResult, average: RunResult, moment2: RunResult, count: nat)
    returns (nextAverage: RunResult, nextMoment2: RunResult)
    requires count > 0
    ensures forall f :: (Get(nextAverage, f), Get(nextMoment2, f))
                     == Welford(Get(average, f), Get(moment2, f), Get(run, f), count)
  {
    nextAverage, nextMoment2 := Accumulate(run, average, moment2, InitTime, count);
    nextAverage, nextMoment2 := Accumulate(run, nextAverage, nextMoment2, InitRate, count);
    nextAverage, nextMoment2 := Accumulate(run, nextAverage, nextMoment2, InitPeriod, count);
    nextAverage, nextMoment2 := Accumulate(run, nextAverage, nextMoment2, RunTime, count);
    nextAverage, nextMoment2 := Accumulate(run, nextAverage, nextMoment2, RunRate, count);
    nextAverage, nextMoment2 := Accumulate(run, nextAverage, nextMoment2, RunPeriod, count);
  }

  lemma OneMoreResult(average: RunResult, moment2: RunResult, nextAverage: RunResult, nextMoment2: RunResult,
                      results: seq<RunResult>, n: nat)
    requires n < |results|
    requires if n == 0 then average == results[0] && forall f :: Get(moment2, f) == 0.0
             else Summarizes(average, moment2, results[..n])
    requires forall f :: (Get(nextAverage, f), Get(nextMoment2, f))
                      == Welford(Get(average, f), Get(moment2, f), Get(results[n], f), n + 1)
    ensures Summarizes(nextAverage, nextMoment2, results[..n + 1])
  {
    var all := results[..n + 1];
    forall f ensures Summarized(nextAverage, nextMoment2, all, f) {
      var xs, x := Samples(results[..n], f), Get(results[n], f);
      assert Samples(all, f) == xs + [x];
      if n == 0 {
        assert xs + [x] == [x];
        WelfordStart(x);
      } else {
        assert Summarized(average, moment2, results[..n], f);
        MeanIsMean(xs);
        MeanIsMean(xs + [x]);
        WelfordStep(xs, Mean(xs), x, Mean(xs + [x]));
      }
    }
  }

  datatype Statistics = None | Statistics(average: RunResult, variance: RunResult)

  function Variance(moment2: RunResult, n: nat): (r: RunResult)
    requires n > 0
    ensures forall f :: Get(r, f) == Get(moment2, f) / n as real
  {
    var d := n as real;
    RunResult(PhaseResult(moment2.init.time / d, moment2.init.rate / d, moment2.init.period / d),
              PhaseResult(moment2.run.time / d, moment2.run.rate / d, moment2.run.period / d))
  }

  /** The statistics of the runs: none for fewer than two, else in every field the mean and the mean
      squared deviation, which is no negative number, so that its square root is the deviation. */
  method Log(results: seq<RunResult>) returns (s: Statistics)
    ensures s.None? <==> |results| < 2
    ensures s.Statistics? ==>
              forall f :: var xs := Samples(results, f);
                && Get(s.average, f) == Mean(xs)
                && Get(s.variance, f) == Deviations(xs, Mean(xs)) / |xs| as real
                && Get(s.variance, f) >= 0.0
  {
    if |results| < 2 {
      return None;
    }
    var average := results[0];
    var moment2 := RunResult(PhaseResult(0.0, 0.0, 0.0), PhaseResult(0.0, 0.0, 0.0));
    var n := 0;
    while n < |results|
      invariant 0 <= n <= |results|
      invariant n == 0 ==> average == results[0] && forall f :: Get(moment2, f) == 0.0
      invariant n > 0 ==> Summarizes(average, moment2, results[..n])
    {
      var nextAverage, nextMoment2 := AccumulateAll(results[n], average, moment2, n + 1);
      OneMoreResult(average, moment2, nextAverage, nextMoment2, results, n);
      average, moment2 := nextAverage, nextMoment2;
      n := n + 1;
    }
    assert results[..n] == results;
    s := Statistics(average, Variance(moment2, n));
    forall f
      ensures Get(s.average, f) == Mean(Samples(results, f))
      ensures Get(s.variance, f) == Deviations(Samples(results, f), Mean(Samples(results, f))) / n as real
      ensures Get(s.variance, f) >= 0.0
    {
      assert Summarized(average, moment2, results, f);
      DeviationsNotNegative(Samples(results, f), Mean(Samples(results, f)));
    }
  }
}
