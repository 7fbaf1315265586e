/** The search for configuration paths of utils/print-introspected-doxygen.cc, said again without the edge
    lists of its specification: what the attributes, subclasses and aggregations of a type lead to, in which
    order, and what is recorded for them. */
module ConfigRoutes {
  import opened Collections
  import opened ConfigPaths

  // ---------------------------------------------------------------------------------------------
  // Where edges come from
  // ---------------------------------------------------------------------------------------------

  datatype Origin = OfAttribute(i: nat) | OfSubclass(i: nat) | OfAggregation(i: nat)

  /** Origin o of type t leads along edge e: a typed pointer under its name, but none to the base Object; an
      object vector under its name and an index mark; a subclass and an aggregated type under their names
      behind a dollar sign. */
  ghost predicate Gives(g: Graph, t: TypeId, o: Origin, e: Edge)
    requires g.Has(t)
  {
    match o
    case OfAttribute(i) =>
      && i < |g.types[t].attributes|
      && var a := g.types[t].attributes[i];
         || (a.checker == PointerTo(e.target) && e.target != g.objectType && e.name == a.name)
         || (a.checker == VectorOf(e.target) && e.name == a.name + "/[i]")
    case OfSubclass(i) =>
      i < |g.types| && (i, t) in g.childOf && e.target == i && e.name == "$" + g.types[i].name
    case OfAggregation(i) =>
      && i < |g.aggregates| && (g.aggregates[i] == (t, e.target) || g.aggregates[i] == (e.target, t))
      && e.target < |g.types| && e.name == "$" + g.types[e.target].name
  }

  /** Attributes come before subclasses and these before aggregations, each kind in its own order. */
  ghost predicate Earlier(o: Origin, p: Origin) {
    match (o, p)
    case (OfAttribute(i), OfAttribute(j)) => i < j
    case (OfSubclass(i), OfSubclass(j)) => i < j
    case (OfAggregation(i), OfAggregation(j)) => i < j
    case (OfAttribute(_), _) => true
    case (OfSubclass(_), OfAggregation(_)) => true
    case _ => false
  }

  ghost predicate GivesAll(g: Graph, t: TypeId, os: seq<Origin>, edges: seq<Edge>)
    requires g.Has(t)
  {
    |os| == |edges| && forall k :: 0 <= k < |os| ==> Gives(g, t, os[k], edges[k])
  }

  ghost predicate InOrder(os: seq<Origin>) {
    forall i, j :: 0 <= i < j < |os| ==> Earlier(os[i], os[j])
  }

  ghost predicate GivesSomething(g: Graph, t: TypeId, o: Origin)
    requires g.Has(t)
  {
    exists e :: Gives(g, t, o, e)
  }

  /** An origin gives one edge at most. */
  lemma GivesOne(g: Graph, t: TypeId, o: Origin, e: Edge, f: Edge)
    requires g.Has(t) && Gives(g, t, o, e) && Gives(g, t, o, f)
    ensures e == f
  {
  }

  lemma AddOrigin(g: Graph, t: TypeId, before: seq<Origin>, es: seq<Edge>, o: Origin, here: seq<Edge>) returns (os: seq<Origin>)
    requires g.Has(t) && GivesAll(g, t, before, es) && InOrder(before) && forall p :: p in before ==> Earlier(p, o)
    requires |here| <= 1 && (here != [] ==> Gives(g, t, o, here[0]))
    ensures GivesAll(g, t, os, es + here) && InOrder(os)
    ensures forall p :: p in os <==> p in before || (here != [] && p == o)
  {
    hide Gives, Earlier;
    os := before + if here == [] then [] else [o];
    assert forall i :: 0 <= i < |before| ==> before[i] in before;
    assert forall p :: p in os <==> p in before || (here != [] && p == o);
  }

  /** The first n origins of each kind, as far as they give something. */
  lemma {:induction false} AttributeOrigins(g: Graph, t: TypeId, n: nat) returns (os: seq<Origin>)
    requires g.Has(t) && n <= |g.types[t].attributes|
    ensures GivesAll(g, t, os, g.AttributeEdges(g.types[t].attributes, n)) && InOrder(os)
    ensures forall o :: o in os <==> o.OfAttribute? && o.i < n && GivesSomething(g, t, o)
  {
    if n == 0 {
      os := [];
    } else {
      hide Gives, GivesAll, InOrder, GivesSomething;
      var attributes := g.types[t].attributes;
      var before := AttributeOrigins(g, t, n - 1);
      AttributeGives(g, t, n - 1);
      os := AddOrigin(g, t, before, g.AttributeEdges(attributes, n - 1), OfAttribute(n - 1), g.AttributeEdge(attributes[n - 1]));
    }
  }

  lemma AttributeGives(g: Graph, t: TypeId, i: nat)
    requires g.Has(t) && i < |g.types[t].attributes|
    ensures var here := g.AttributeEdge(g.types[t].attributes[i]);
            && |here| <= 1 && (here != [] ==> Gives(g, t, OfAttribute(i), here[0]))
            && (GivesSomething(g, t, OfAttribute(i)) <==> here != [])
  {
    var a, here := g.types[t].attributes[i], g.AttributeEdge(g.types[t].attributes[i]);
    if here != [] {
      assert Gives(g, t, OfAttribute(i), here[0]);
    }
    if e :| Gives(g, t, OfAttribute(i), e) {
      assert a.checker == PointerTo(e.target) || a.checker == VectorOf(e.target);
    }
  }

  lemma {:induction false} SubclassOrigins(g: Graph, t: TypeId, n: nat) returns (os: seq<Origin>)
    requires g.Has(t) && n <= |g.types|
    ensures GivesAll(g, t, os, g.ChildEdges(t, n)) && InOrder(os)
    ensures forall o :: o in os <==> o.OfSubclass? && o.i < n && GivesSomething(g, t, o)
  {
    if n == 0 {
      os := [];
    } else {
      hide Gives, GivesAll, InOrder, GivesSomething;
      var before := SubclassOrigins(g, t, n - 1);
      var here := SubclassGives(g, t, n - 1);
      os := AddOrigin(g, t, before, g.ChildEdges(t, n - 1), OfSubclass(n - 1), here);
    }
  }

  lemma SubclassGives(g: Graph, t: TypeId, i: nat) returns (here: seq<Edge>)
    requires g.Has(t) && i < |g.types|
    ensures g.ChildEdges(t, i + 1) == g.ChildEdges(t, i) + here
    ensures |here| <= 1 && (here != [] ==> Gives(g, t, OfSubclass(i), here[0]))
    ensures GivesSomething(g, t, OfSubclass(i)) <==> here != []
  {
    here := if (i, t) in g.childOf then [Edge("$" + g.types[i].name, i)] else [];
    if here != [] {
      assert Gives(g, t, OfSubclass(i), here[0]);
    }
  }

  lemma {:induction false} AggregationOrigins(g: Graph, t: TypeId, n: nat) returns (os: seq<Origin>)
    requires g.Has(t) && n <= |g.aggregates|
    ensures GivesAll(g, t, os, g.AggregateEdges(t, n)) && InOrder(os)
    ensures forall o :: o in os <==> o.OfAggregation? && o.i < n && GivesSomething(g, t, o)
  {
    if n == 0 {
      os := [];
    } else {
      hide Gives, GivesAll, InOrder, GivesSomething;
      var before := AggregationOrigins(g, t, n - 1);
      AggregationGives(g, t, n - 1);
      os := AddOrigin(g, t, before, g.AggregateEdges(t, n - 1), OfAggregation(n - 1), g.AggregateEdge(t, g.aggregates[n - 1]));
    }
  }

  lemma AggregationGives(g: Graph, t: TypeId, i: nat)
    requires g.Has(t) && i < |g.aggregates|
    ensures var here := g.AggregateEdge(t, g.aggregates[i]);
            && |here| <= 1 && (here != [] ==> Gives(g, t, OfAggregation(i), here[0]))
            && (GivesSomething(g, t, OfAggregation(i)) <==> here != [])
  {
    var here := g.AggregateEdge(t, g.aggregates[i]);
    if here != [] {
      assert Gives(g, t, OfAggregation(i), here[0]);
    }
  }

  lemma JoinOrigins(g: Graph, t: TypeId, os: seq<Origin>, es: seq<Edge>, ps: seq<Origin>, fs: seq<Edge>)
    requires g.Has(t) && GivesAll(g, t, os, es) && GivesAll(g, t, ps, fs) && InOrder(os) && InOrder(ps)
    requires forall i, j :: 0 <= i < |os| && 0 <= j < |ps| ==> Earlier(os[i], ps[j])
    ensures GivesAll(g, t, os + ps, es + fs) && InOrder(os + ps)
  {
  }

  /** The search follows exactly what the origins of a type give, in their order, each once. */
  lemma EdgesInOrder(g: Graph, t: TypeId) returns (os: seq<Origin>)
    requires g.Has(t)
    ensures GivesAll(g, t, os, g.Edges(t)) && InOrder(os)
    ensures forall o :: o in os <==> GivesSomething(g, t, o)
  {
    var n := |g.types[t].attributes|;
    var a := AttributeOrigins(g, t, n);
    var b := SubclassOrigins(g, t, |g.types|);
    var c := AggregationOrigins(g, t, |g.aggregates|);
    var es, fs := g.AttributeEdges(g.types[t].attributes, n), g.ChildEdges(t, |g.types|);
    assert forall i :: 0 <= i < |a| ==> a[i] in a;
    assert forall i :: 0 <= i < |b| ==> b[i] in b;
    assert forall i :: 0 <= i < |c| ==> c[i] in c;
    JoinOrigins(g, t, a, es, b, fs);
    assert forall i :: 0 <= i < |a + b| ==> (a + b)[i].OfAttribute? || (a + b)[i].OfSubclass?;
    JoinOrigins(g, t, a + b, es + fs, c, g.AggregateEdges(t, |g.aggregates|));
    os := a + b + c;
    forall o ensures o in os <==> GivesSomething(g, t, o) {
      assert o in os <==> o in a || o in b || o in c;
    }
  }

  lemma EdgesExact(g: Graph, t: TypeId, e: Edge)
    requires g.Has(t)
    ensures e in g.Edges(t) <==> exists o :: Gives(g, t, o, e)
  {
    var os := EdgesInOrder(g, t);
    var edges := g.Edges(t);
    if k :| 0 <= k < |edges| && edges[k] == e {
      assert Gives(g, t, os[k], e);
    }
    if o :| Gives(g, t, o, e) {
      assert GivesSomething(g, t, o);
      var k :| 0 <= k < |os| && os[k] == o;
      GivesOne(g, t, o, e, edges[k]);
    }
  }

  // ---------------------------------------------------------------------------------------------
  // Routes
  // ---------------------------------------------------------------------------------------------

  /** Every step starts where the one before it has ended, and has an origin there. */
  ghost predicate IsRoute(g: Graph, t: TypeId, steps: seq<Edge>)
    requires g.Has(t)
    decreases |steps|
  {
    steps == []
    || ((exists o :: Gives(g, t, o, steps[0])) && steps[0].target < |g.types| && IsRoute(g, steps[0].target, steps[1..]))
  }

  /** The types on the way. */
  ghost function Stops(t: TypeId, steps: seq<Edge>): (r: seq<TypeId>)
    ensures |r| == |steps| + 1 && r[0] == t && forall i :: 0 <= i < |steps| ==> r[i + 1] == steps[i].target
    decreases |steps|
  {
    if steps == [] then [t] else [t] + Stops(steps[0].target, steps[1..])
  }

  /** Every label behind a slash. */
  ghost function Spelled(steps: seq<Edge>): string {
    if steps == [] then "" else "/" + steps[0].name + Spelled(steps[1..])
  }

  /** The steps visit no type twice and leave that record. */
  ghost predicate Leaves(g: Graph, t: TypeId, steps: seq<Edge>, record: (TypeId, string))
    requires g.Has(t)
  {
    && IsRoute(g, t, steps) && NoDuplicates(Stops(t, steps))
    && record == (Stops(t, steps)[|steps|], Spelled(steps))
  }

  lemma {:induction false} StepsOfWalk(g: Graph, t: TypeId, w: Walk) returns (steps: seq<Edge>)
    requires g.Has(t) && IsWalk(g, t, w)
    ensures IsRoute(g, t, steps) && Stops(t, steps) == Visited(g, t, w)
    ensures |steps| == |w| && forall i :: 0 <= i < |w| ==> steps[i].name == Labels(g, t, w)[i]
    decreases |w|
  {
    if w == [] {
      steps := [];
    } else {
      var e := g.EdgeAt(t, w[0]);
      var rest := StepsOfWalk(g, e.target, w[1..]);
      assert e in g.Edges(t);
      EdgesExact(g, t, e);
      steps := [e] + rest;
      assert steps[1..] == rest;
    }
  }

  lemma {:induction false} WalkOfSteps(g: Graph, t: TypeId, steps: seq<Edge>) returns (w: Walk)
    requires g.Has(t) && IsRoute(g, t, steps)
    ensures IsWalk(g, t, w) && Stops(t, steps) == Visited(g, t, w)
    ensures |steps| == |w| && forall i :: 0 <= i < |w| ==> steps[i].name == Labels(g, t, w)[i]
    decreases |steps|
  {
    if steps == [] {
      w := [];
    } else {
      var e := steps[0];
      EdgesExact(g, t, e);
      var k :| 0 <= k < |g.Edges(t)| && g.Edges(t)[k] == e;
      var rest := WalkOfSteps(g, e.target, steps[1..]);
      hide Visited, Labels, IsWalk, Graph.Edges, Graph.Valid;
      w := [k] + rest;
      WalkStep(g, t, k, rest);
    }
  }

  lemma {:induction false} JoinFirst(x: string, texts: seq<string>)
    ensures JoinPath([x] + texts) == "/" + x + JoinPath(texts)
  {
    var all := [x] + texts;
    if texts == [] {
      assert all[..0] == [];
    } else {
      var n := |texts| - 1;
      JoinFirst(x, texts[..n]);
      assert all[..|all| - 1] == [x] + texts[..n];
    }
  }

  lemma {:induction false} JoinIsSpelled(texts: seq<string>, steps: seq<Edge>)
    requires |texts| == |steps| && forall i :: 0 <= i < |steps| ==> steps[i].name == texts[i]
    ensures JoinPath([] + texts) == Spelled(steps)
  {
    assert [] + texts == texts;
    if steps != [] {
      JoinIsSpelled(texts[1..], steps[1..]);
      assert [] + texts[1..] == texts[1..];
      JoinFirst(texts[0], texts[1..]);
      assert texts == [texts[0]] + texts[1..];
    }
  }

  lemma NothingAvoided(s: seq<TypeId>)
    ensures Elements(s) !! {}
  {
  }

  /** What gathering a root records, said without the search and its edges: the end and the spelling of every
      route from the root that visits no type twice, and nothing else. */
  lemma RecordsExactly(g: Graph, t: TypeId, record: (TypeId, string))
    requires g.Has(t)
    ensures record in RecordsFrom(g, t) <==> exists steps :: Leaves(g, t, steps, record)
  {
    RecordsFromExact(g, t, record);
    if w :| Spells(g, t, w, record) {
      var steps := StepsOfWalk(g, t, w);
      JoinIsSpelled(Labels(g, t, w), steps);
      assert Leaves(g, t, steps, record);
    }
    if steps :| Leaves(g, t, steps, record) {
      var w := WalkOfSteps(g, t, steps);
      JoinIsSpelled(Labels(g, t, w), steps);
      NothingAvoided(Visited(g, t, w));
      assert Spells(g, t, w, record);
    }
  }

  lemma OneStepRecorded(g: Graph, t: TypeId, o: Origin, e: Edge)
    requires g.Has(t) && Gives(g, t, o, e) && e.target < |g.types| && e.target != t
    ensures (e.target, "/" + e.name) in RecordsFrom(g, t)
  {
    var steps := [e];
    assert steps[1..] == [];
    assert Stops(t, steps) == [t, e.target];
    assert Spelled(steps) == "/" + e.name;
    assert Leaves(g, t, steps, (e.target, "/" + e.name));
    RecordsExactly(g, t, (e.target, "/" + e.name));
  }

  /** The items of an object vector of a root are recorded. */
  lemma VectorIsRecorded(g: Graph, t: TypeId, i: nat, x: TypeId)
    requires g.Has(t) && i < |g.types[t].attributes| && g.types[t].attributes[i].checker == VectorOf(x) && x != t
    ensures (x, "/" + g.types[t].attributes[i].name + "/[i]") in RecordsFrom(g, t)
  {
    var name := g.types[t].attributes[i].name;
    OneStepRecorded(g, t, OfAttribute(i), Edge(name + "/[i]", x));
    assert "/" + (name + "/[i]") == "/" + name + "/[i]";
  }

  /** So is what a pointer of a root points to, if it is no plain Object. */
  lemma PointerIsRecorded(g: Graph, t: TypeId, i: nat, x: TypeId)
    requires g.Has(t) && i < |g.types[t].attributes| && g.types[t].attributes[i].checker == PointerTo(x)
    requires x != t && x != g.objectType
    ensures (x, "/" + g.types[t].attributes[i].name) in RecordsFrom(g, t)
  {
    OneStepRecorded(g, t, OfAttribute(i), Edge(g.types[t].attributes[i].name, x));
  }

  /** And the subclasses of a root, and the types aggregated with it in either direction. */
  lemma RelativeIsRecorded(g: Graph, t: TypeId, x: TypeId)
    requires g.Has(t) && x < |g.types| && x != t
    requires (x, t) in g.childOf || (t, x) in g.aggregates || (x, t) in g.aggregates
    ensures (x, "/$" + g.types[x].name) in RecordsFrom(g, t)
  {
    var e := Edge("$" + g.types[x].name, x);
    assert "/" + e.name == "/$" + g.types[x].name;
    if (x, t) in g.childOf {
      OneStepRecorded(g, t, OfSubclass(x), e);
    } else {
      var i :| 0 <= i < |g.aggregates| && (g.aggregates[i] == (t, x) || g.aggregates[i] == (x, t));
      OneStepRecorded(g, t, OfAggregation(i), e);
    }
  }

  // ---------------------------------------------------------------------------------------------
  // Paths in recording order
  // ---------------------------------------------------------------------------------------------

  /** picks are the positions of the records of tid, in order. */
  ghost predicate Picks(output: seq<(TypeId, string)>, tid: TypeId, picks: seq<nat>) {
    && (forall k :: 0 <= k < |picks| ==> picks[k] < |output|)
    && (forall j, k :: 0 <= j < k < |picks| ==> picks[j] < picks[k])
    && (forall i: nat :: i in picks <==> i < |output| && output[i].0 == tid)
  }

  lemma MorePicks(output: seq<(TypeId, string)>, tid: TypeId, before: seq<nat>)
    requires output != [] && Picks(output[..|output| - 1], tid, before)
    ensures Picks(output, tid, before + if output[|output| - 1].0 == tid then [|output| - 1] else [])
  {
    var n := |output| - 1;
    var picks := before + if output[n].0 == tid then [n] else [];
    assert forall i :: 0 <= i < |before| ==> before[i] in before;
    forall i: nat ensures i in picks <==> i < |output| && output[i].0 == tid {
      assert i in picks <==> i in before || (output[n].0 == tid && i == n);
    }
  }

  /** `Get` returns the paths recorded for a type, each as often as it was recorded and in that order. */
  lemma {:induction false} PathsInOrder(tid: TypeId, output: seq<(TypeId, string)>) returns (picks: seq<nat>)
    ensures Picks(output, tid, picks) && |PathsFor(tid, output)| == |picks|
    ensures forall k :: 0 <= k < |picks| ==> PathsFor(tid, output)[k] == output[picks[k]].1
  {
    if output == [] {
      picks := [];
    } else {
      var n := |output| - 1;
      var here := if output[n].0 == tid then [output[n].1] else [];
      assert PathsFor(tid, output) == PathsFor(tid, output[..n]) + here;
      hide PathsFor, Picks;
      var before := PathsInOrder(tid, output[..n]);
      MorePicks(output, tid, before);
      picks := before + if output[n].0 == tid then [n] else [];
      PicksAreBelow(output[..n], tid, before);
    }
  }

  lemma PicksAreBelow(output: seq<(TypeId, string)>, tid: TypeId, picks: seq<nat>)
    requires Picks(output, tid, picks)
    ensures forall k :: 0 <= k < |picks| ==> picks[k] < |output|
  {
  }
}
