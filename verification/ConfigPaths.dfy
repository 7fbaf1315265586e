/** Configuration-path enumeration of utils/print-introspected-doxygen.cc.

    `StaticInformation.DoGather` is a depth-first search whose "already processed" list is a stack,
    so it lists walks and not reachable types.  The specification below never mentions the search:
    a walk is a list of edge numbers, it is simple when it visits no type twice, and the walks come
    in preorder (a prefix before its extensions, siblings by edge number).
 */
module ConfigPaths {
  import opened Collections

  // ---------------------------------------------------------------------------------------------
  // The type graph
  // ---------------------------------------------------------------------------------------------

  /** A type is its registration index. */
  type TypeId = nat

  datatype Checker = PointerTo(pointee: TypeId) | VectorOf(item: TypeId) | Plain

  datatype Attribute = Attribute(name: string, checker: Checker)

  datatype TypeInfo = TypeInfo(name: string, attributes: seq<Attribute>)

  ghost function FirstNaturals(n: nat): (r: set<nat>)
    ensures |r| == n && forall i: nat :: i in r <==> i < n
  {
    if n == 0 then {} else FirstNaturals(n - 1) + {n - 1}
  }

  datatype Edge = Edge(name: string, target: TypeId)

  /** What the type registry answers, together with the recorded aggregations. */
  datatype Graph = Graph(types: seq<TypeInfo>,
                         childOf: set<(TypeId, TypeId)>,
                         objectType: TypeId,
                         aggregates: seq<(TypeId, TypeId)>) {

    ghost function Ids(): set<TypeId> {
      FirstNaturals(|types|)
    }

    ghost predicate CheckerRegistered(checker: Checker) {
      match checker
      case PointerTo(p) => p < |types|
      case VectorOf(p) => p < |types|
      case Plain => true
    }

    /** Every TypeId the registry hands out is registered. */
    ghost predicate Valid() {
      && (forall t, i :: 0 <= t < |types| && 0 <= i < |types[t].attributes| ==>
            CheckerRegistered(types[t].attributes[i].checker))
      && (forall i :: 0 <= i < |aggregates| ==> aggregates[i].0 < |types| && aggregates[i].1 < |types|)
    }

    /** t is a type of a valid graph. */
    ghost predicate Has(t: TypeId) {
      Valid() && t < |types|
    }

    /** The edge of one attribute: object vectors and typed pointers, but no pointer to the base Object. */
    function AttributeEdge(a: Attribute): seq<Edge> {
      match a.checker
      case PointerTo(p) => if p == objectType then [] else [Edge(a.name, p)]
      case VectorOf(p) => [Edge(a.name + "/[i]", p)]
      case Plain => []
    }

    /** The edges of the first n attributes. */
    function AttributeEdges(attributes: seq<Attribute>, n: nat): seq<Edge>
      requires n <= |attributes|
    {
      if n == 0 then [] else AttributeEdges(attributes, n - 1) + AttributeEdge(attributes[n - 1])
    }

    /** Edges to the subclasses of t among the first n registered types. */
    function ChildEdges(t: TypeId, n: nat): seq<Edge>
      requires n <= |types|
    {
      if n == 0 then []
      else
        ChildEdges(t, n - 1)
        + if (n - 1, t) in childOf then [Edge("$" + types[n - 1].name, n - 1)] else []
    }

    function AggregateEdge(t: TypeId, pair: (TypeId, TypeId)): seq<Edge>
      requires pair.0 < |types| && pair.1 < |types|
    {
      if pair.1 == t then [Edge("$" + types[pair.0].name, pair.0)]
      else if pair.0 == t then [Edge("$" + types[pair.1].name, pair.1)]
      else []
    }

    /** Edges to the types aggregated with t, in either direction, by the first n aggregations. */
    function AggregateEdges(t: TypeId, n: nat): seq<Edge>
      requires Valid() && n <= |aggregates|
    {
      if n == 0 then [] else AggregateEdges(t, n - 1) + AggregateEdge(t, aggregates[n - 1])
    }

    /** All the edges of t in the order in which the search follows them. */
    ghost function Edges(t: TypeId): seq<Edge>
      requires Has(t)
    {
      AttributeEdges(types[t].attributes, |types[t].attributes|) + ChildEdges(t, |types|) + AggregateEdges(t, |aggregates|)
    }

    lemma {:induction false} AttributeEdgesRegistered(t: TypeId, n: nat)
      requires Has(t) && n <= |types[t].attributes|
      ensures forall e :: e in AttributeEdges(types[t].attributes, n) ==> e.target < |types|
    {
      if n > 0 {
        AttributeEdgesRegistered(t, n - 1);
        assert forall e :: e in AttributeEdge(types[t].attributes[n - 1]) ==> e.target < |types|;
      }
    }

    lemma {:induction false} ChildEdgesRegistered(t: TypeId, n: nat)
      requires n <= |types|
      ensures forall e :: e in ChildEdges(t, n) ==> e.target < |types|
    {
      if n > 0 {
        ChildEdgesRegistered(t, n - 1);
      }
    }

    lemma {:induction false} AggregateEdgesRegistered(t: TypeId, n: nat)
      requires Valid() && n <= |aggregates|
      ensures forall e :: e in AggregateEdges(t, n) ==> e.target < |types|
    {
      if n > 0 {
        AggregateEdgesRegistered(t, n - 1);
      }
    }

    lemma EdgesRegistered(t: TypeId)
      requires Has(t)
      ensures forall k :: 0 <= k < |Edges(t)| ==> Edges(t)[k].target < |types|
    {
      AttributeEdgesRegistered(t, |types[t].attributes|);
      ChildEdgesRegistered(t, |types|);
      AggregateEdgesRegistered(t, |aggregates|);
      forall k | 0 <= k < |Edges(t)| ensures Edges(t)[k].target < |types| {
        assert Edges(t)[k] in Edges(t);
      }
    }

    lemma {:induction false} AttributeEdgesPrefix(attributes: seq<Attribute>, i: nat, n: nat)
      requires i <= n <= |attributes|
      ensures AttributeEdges(attributes, i) <= AttributeEdges(attributes, n)
      decreases n
    {
      if i < n {
        AttributeEdgesPrefix(attributes, i, n - 1);
      }
    }

    lemma {:induction false} ChildEdgesPrefix(t: TypeId, i: nat, n: nat)
      requires i <= n <= |types|
      ensures ChildEdges(t, i) <= ChildEdges(t, n)
      decreases n
    {
      if i < n {
        ChildEdgesPrefix(t, i, n - 1);
      }
    }

    lemma {:induction false} AggregateEdgesPrefix(t: TypeId, i: nat, n: nat)
      requires Valid() && i <= n <= |aggregates|
      ensures AggregateEdges(t, i) <= AggregateEdges(t, n)
      decreases n
    {
      if i < n {
        AggregateEdgesPrefix(t, i, n - 1);
      }
    }

    /** Where the edge of the i-th attribute stands among all the edges, and so for the other kinds. */
    lemma AttributeEdgePosition(t: TypeId, i: nat)
      requires Has(t) && i < |types[t].attributes|
      ensures var attributes := types[t].attributes;
              var k, here := |AttributeEdges(attributes, i)|, AttributeEdge(attributes[i]);
              && |AttributeEdges(attributes, i + 1)| == k + |here|
              && (here != [] ==> k < |Edges(t)| && Edges(t)[k] == here[0])
    {
      AttributeEdgesPrefix(types[t].attributes, i + 1, |types[t].attributes|);
    }

    lemma ChildEdgePosition(t: TypeId, j: nat)
      requires Has(t) && j < |types|
      ensures var k := |AttributeEdges(types[t].attributes, |types[t].attributes|)| + |ChildEdges(t, j)|;
              if (j, t) in childOf then
                && |ChildEdges(t, j + 1)| == |ChildEdges(t, j)| + 1
                && k < |Edges(t)| && Edges(t)[k] == Edge("$" + types[j].name, j)
              else |ChildEdges(t, j + 1)| == |ChildEdges(t, j)|
    {
      ChildEdgesPrefix(t, j + 1, |types|);
    }

    lemma AggregateEdgePosition(t: TypeId, i: nat)
      requires Has(t) && i < |aggregates|
      ensures var k := |AttributeEdges(types[t].attributes, |types[t].attributes|)| + |ChildEdges(t, |types|)|
                       + |AggregateEdges(t, i)|;
              var pair := aggregates[i];
              && pair.0 < |types| && pair.1 < |types| &&
              if pair.0 == t || pair.1 == t then
                var other := if pair.1 == t then pair.0 else pair.1;
                && |AggregateEdges(t, i + 1)| == |AggregateEdges(t, i)| + 1
                && k < |Edges(t)| && Edges(t)[k] == Edge("$" + types[other].name, other)
              else |AggregateEdges(t, i + 1)| == |AggregateEdges(t, i)|
    {
      AggregateEdgesPrefix(t, i + 1, |aggregates|);
      hide AttributeEdges, ChildEdges;
      assert AggregateEdges(t, i + 1) == AggregateEdges(t, i) + AggregateEdge(t, aggregates[i]);
    }

    /** The k-th edge of t. */
    ghost function EdgeAt(t: TypeId, k: nat): (e: Edge)
      requires Has(t) && k < |Edges(t)|
      ensures e.target < |types|
    {
      EdgesRegistered(t);
      Edges(t)[k]
    }
  }

  lemma {:induction false} AggregateEdgesExact(g: Graph, t: TypeId, n: nat, e: Edge)
    requires g.Has(t) && n <= |g.aggregates|
    ensures e in g.AggregateEdges(t, n)
            <==> && e.target < |g.types| && e.name == "$" + g.types[e.target].name
                 && exists i :: 0 <= i < n && (g.aggregates[i] == (t, e.target) || g.aggregates[i] == (e.target, t))
  {
    if n > 0 {
      AggregateEdgesExact(g, t, n - 1, e);
      InConcatenation(g.AggregateEdges(t, n - 1), g.AggregateEdge(t, g.aggregates[n - 1]), e);
    }
  }

  /** Aggregation is symmetric: the search can go from a to b exactly when it can go from b to a. */
  lemma AggregationIsSymmetric(g: Graph, a: TypeId, b: TypeId)
    requires g.Has(a) && g.Has(b)
    ensures Edge("$" + g.types[b].name, b) in g.AggregateEdges(a, |g.aggregates|)
            <==> Edge("$" + g.types[a].name, a) in g.AggregateEdges(b, |g.aggregates|)
  {
    AggregateEdgesExact(g, a, |g.aggregates|, Edge("$" + g.types[b].name, b));
    AggregateEdgesExact(g, b, |g.aggregates|, Edge("$" + g.types[a].name, a));
  }

  // ---------------------------------------------------------------------------------------------
  // Walks
  // ---------------------------------------------------------------------------------------------

  /** A walk is the list of the edge numbers it follows. */
  type Walk = seq<nat>

  lemma NoDuplicatesCons<T>(x: T, s: seq<T>)
    ensures NoDuplicates([x] + s) <==> x !in s && NoDuplicates(s)
  {
    var xs := [x] + s;
    assert forall i :: 0 <= i < |s| ==> xs[i + 1] == s[i];
    if NoDuplicates(xs) {
      assert forall i, j :: 0 <= i < j < |s| ==> s[i] == xs[i + 1] && s[j] == xs[j + 1];
      forall i | 0 <= i < |s| ensures s[i] != x {
        assert xs[0] != xs[i + 1];
      }
    }
  }

  ghost predicate IsWalk(g: Graph, t: TypeId, w: Walk)
    requires g.Has(t)
    decreases |w|
  {
    w == [] || (w[0] < |g.Edges(t)| && IsWalk(g, g.EdgeAt(t, w[0]).target, w[1..]))
  }

  /** The types a walk from t goes through, t first. */
  ghost function Visited(g: Graph, t: TypeId, w: Walk): (r: seq<TypeId>)
    requires g.Has(t) && IsWalk(g, t, w)
    ensures |r| == |w| + 1 && r[0] == t && forall v :: v in r ==> v < |g.types|
    decreases |w|
  {
    if w == [] then [t] else [t] + Visited(g, g.EdgeAt(t, w[0]).target, w[1..])
  }

  /** The labels along a walk. */
  ghost function Labels(g: Graph, t: TypeId, w: Walk): (r: seq<string>)
    requires g.Has(t) && IsWalk(g, t, w)
    ensures |r| == |w|
    decreases |w|
  {
    if w == [] then []
    else [g.EdgeAt(t, w[0]).name] + Labels(g, g.EdgeAt(t, w[0]).target, w[1..])
  }

  /** A walk that repeats no type and enters none of the types in avoid. */
  ghost predicate IsSimpleWalk(g: Graph, t: TypeId, avoid: set<TypeId>, w: Walk)
    requires g.Has(t)
  {
    && IsWalk(g, t, w)
    && NoDuplicates(Visited(g, t, w))
    && Elements(Visited(g, t, w)) !! avoid
  }

  /** Preorder: a walk precedes its extensions, and siblings are ordered by edge number. */
  ghost predicate Before(a: Walk, b: Walk)
    decreases |a|
  {
    b != [] && (a == [] || a[0] < b[0] || (a[0] == b[0] && Before(a[1..], b[1..])))
  }

  ghost predicate InPreorder(ws: seq<Walk>) {
    forall i, j :: 0 <= i < j < |ws| ==> Before(ws[i], ws[j])
  }

  /** "/a/b/c" for the labels a, b, c. */
  function JoinPath(labels: seq<string>): string {
    if labels == [] then ""
    else JoinPath(labels[..|labels| - 1]) + "/" + labels[|labels| - 1]
  }

  /** The record of a walk that starts where the labels in prefix lead: its end type and its path. */
  ghost function RecordOf(g: Graph, prefix: seq<string>, t: TypeId, w: Walk): (TypeId, string)
    requires g.Has(t) && IsWalk(g, t, w)
  {
    (Visited(g, t, w)[|w|], JoinPath(prefix + Labels(g, t, w)))
  }

  ghost predicate AreWalks(g: Graph, t: TypeId, ws: seq<Walk>)
    requires g.Has(t)
  {
    forall i :: 0 <= i < |ws| ==> IsWalk(g, t, ws[i])
  }

  ghost function RecordsOf(g: Graph, prefix: seq<string>, t: TypeId, ws: seq<Walk>): (r: seq<(TypeId, string)>)
    requires g.Has(t) && AreWalks(g, t, ws)
    ensures |r| == |ws|
    ensures forall i :: 0 <= i < |ws| ==> r[i] == RecordOf(g, prefix, t, ws[i])
  {
    seq(|ws|, i requires 0 <= i < |ws| => RecordOf(g, prefix, t, ws[i]))
  }

  // ---------------------------------------------------------------------------------------------
  // The order in which the search lists the walks
  // ---------------------------------------------------------------------------------------------

  ghost function Under(k: nat, ws: seq<Walk>): (r: seq<Walk>)
    ensures |r| == |ws| && forall i :: 0 <= i < |ws| ==> r[i] == [k] + ws[i]
  {
    seq(|ws|, i requires 0 <= i < |ws| => [k] + ws[i])
  }

  /** The simple walks from t, as the search lists them. */
  ghost function Walks(g: Graph, t: TypeId, avoid: set<TypeId>): seq<Walk>
    requires g.Has(t)
    decreases g.Ids() - avoid, |g.Edges(t)| + 1
  {
    if t in avoid then [] else [[]] + WalksThrough(g, t, avoid, |g.Edges(t)|)
  }

  /** Those of them that begin with one of the first n edges. */
  ghost function WalksThrough(g: Graph, t: TypeId, avoid: set<TypeId>, n: nat): seq<Walk>
    requires g.Has(t) && t !in avoid && n <= |g.Edges(t)|
    decreases g.Ids() - avoid, n
  {
    if n == 0 then []
    else
      WalksThrough(g, t, avoid, n - 1)
      + Under(n - 1, Walks(g, g.EdgeAt(t, n - 1).target, avoid + {t}))
  }

  lemma SimpleWalkStep(g: Graph, t: TypeId, avoid: set<TypeId>, k: nat, w: Walk)
    requires g.Has(t) && k < |g.Edges(t)|
    ensures IsSimpleWalk(g, t, avoid, [k] + w)
            <==> t !in avoid && IsSimpleWalk(g, g.EdgeAt(t, k).target, avoid + {t}, w)
  {
    var u := g.EdgeAt(t, k).target;
    assert ([k] + w)[1..] == w;
    assert IsWalk(g, t, [k] + w) <==> IsWalk(g, u, w);
    if IsWalk(g, u, w) {
      var s := Visited(g, u, w);
      assert Visited(g, t, [k] + w) == [t] + s;
      NoDuplicatesCons(t, s);
      assert Elements([t] + s) == {t} + Elements(s);
    }
  }

  /** Soundness and completeness of the listing, for walks that begin with one of the first n edges. */
  lemma {:induction false} WalksThroughExact(g: Graph, t: TypeId, avoid: set<TypeId>, n: nat, w: Walk)
    requires g.Has(t) && t !in avoid && n <= |g.Edges(t)|
    ensures w in WalksThrough(g, t, avoid, n) <==> w != [] && w[0] < n && IsSimpleWalk(g, t, avoid, w)
    decreases g.Ids() - avoid, n
  {
    if n > 0 {
      WalksThroughExact(g, t, avoid, n - 1, w);
      var k := n - 1;
      var u := g.EdgeAt(t, k).target;
      UnderMember(k, Walks(g, u, avoid + {t}), w);
      if w != [] && w[0] == k {
        assert w == [k] + w[1..];
        SimpleWalkStep(g, t, avoid, k, w[1..]);
        WalksExact(g, u, avoid + {t}, w[1..]);
      }
      InConcatenation(WalksThrough(g, t, avoid, n - 1), Under(k, Walks(g, u, avoid + {t})), w);
    }
  }

  lemma UnderMember(k: nat, ws: seq<Walk>, w: Walk)
    ensures w in Under(k, ws) <==> w != [] && w[0] == k && w[1..] in ws
  {
    if w != [] && w[0] == k && w[1..] in ws {
      var i :| 0 <= i < |ws| && ws[i] == w[1..];
      assert Under(k, ws)[i] == [k] + w[1..] == w;
    }
    if w in Under(k, ws) {
      var i :| 0 <= i < |ws| && Under(k, ws)[i] == w;
      assert w[1..] == ws[i];
    }
  }

  /** Soundness and completeness: exactly the simple walks are listed. */
  lemma {:induction false} WalksExact(g: Graph, t: TypeId, avoid: set<TypeId>, w: Walk)
    requires g.Has(t)
    ensures w in Walks(g, t, avoid) <==> IsSimpleWalk(g, t, avoid, w)
    decreases g.Ids() - avoid, |g.Edges(t)| + 1
  {
    if t in avoid {
      if IsWalk(g, t, w) {
        assert Visited(g, t, w)[0] in Elements(Visited(g, t, w));
      }
    } else {
      WalksThroughExact(g, t, avoid, |g.Edges(t)|, w);
      if w == [] {
        assert Walks(g, t, avoid)[0] == w;
        assert Elements(Visited(g, t, w)) == {t};
      }
    }
  }

  lemma PreorderConcat(front: seq<Walk>, back: seq<Walk>)
    requires InPreorder(front) && InPreorder(back)
    requires forall i, j :: 0 <= i < |front| && 0 <= j < |back| ==> Before(front[i], back[j])
    ensures InPreorder(front + back)
  {
  }

  lemma UnderInPreorder(k: nat, ws: seq<Walk>)
    requires InPreorder(ws)
    ensures InPreorder(Under(k, ws))
  {
    var us := Under(k, ws);
    forall i, j | 0 <= i < j < |us| ensures Before(us[i], us[j]) {
      assert us[i][1..] == ws[i] && us[j][1..] == ws[j];
    }
  }

  lemma {:induction false} WalksThroughInPreorder(g: Graph, t: TypeId, avoid: set<TypeId>, n: nat)
    requires g.Has(t) && t !in avoid && n <= |g.Edges(t)|
    ensures InPreorder(WalksThrough(g, t, avoid, n))
    decreases g.Ids() - avoid, n
  {
    if n > 0 {
      WalksThroughInPreorder(g, t, avoid, n - 1);
      var u := g.EdgeAt(t, n - 1).target;
      WalksInPreorder(g, u, avoid + {t});
      var front, back := WalksThrough(g, t, avoid, n - 1), Under(n - 1, Walks(g, u, avoid + {t}));
      UnderInPreorder(n - 1, Walks(g, u, avoid + {t}));
      forall i, j | 0 <= i < |front| && 0 <= j < |back| ensures Before(front[i], back[j]) {
        WalksThroughExact(g, t, avoid, n - 1, front[i]);
        assert front[i] in front;
      }
      PreorderConcat(front, back);
    }
  }

  lemma {:induction false} WalksInPreorder(g: Graph, t: TypeId, avoid: set<TypeId>)
    requires g.Has(t)
    ensures InPreorder(Walks(g, t, avoid))
    decreases g.Ids() - avoid, |g.Edges(t)| + 1
  {
    if t !in avoid {
      var n := |g.Edges(t)|;
      WalksThroughInPreorder(g, t, avoid, n);
      var ws := WalksThrough(g, t, avoid, n);
      forall j | 0 <= j < |ws| ensures Before([], ws[j]) {
        WalksThroughExact(g, t, avoid, n, ws[j]);
        assert ws[j] in ws;
      }
    }
  }

  lemma {:induction false} BeforeIsIrreflexive(a: Walk)
    ensures !Before(a, a)
    decreases |a|
  {
    if a != [] {
      BeforeIsIrreflexive(a[1..]);
    }
  }

  lemma {:induction false} BeforeIsAsymmetric(a: Walk, b: Walk)
    requires Before(a, b)
    ensures !Before(b, a)
    decreases |a|
  {
    if a != [] && a[0] == b[0] {
      BeforeIsAsymmetric(a[1..], b[1..]);
    }
  }

  /** A set of walks has only one preorder listing, so the two lemmas above pin the output down. */
  lemma {:induction false} PreorderListingIsUnique(p: seq<Walk>, q: seq<Walk>)
    requires InPreorder(p) && InPreorder(q)
    requires Elements(p) == Elements(q)
    ensures p == q
    decreases |p|
  {
    if p == [] {
      if q != [] {
        HasElement(q);
      }
    } else if q == [] {
      HasElement(p);
    } else {
      HasElement(p);
      HasElement(q);
      assert p[0] in q && q[0] in p;
      var i :| 0 <= i < |q| && q[i] == p[0];
      var j :| 0 <= j < |p| && p[j] == q[0];
      if i != 0 && j != 0 {
        assert Before(q[0], q[i]) && Before(p[0], p[j]);
        BeforeIsAsymmetric(p[0], q[0]);
      }
      assert p[0] == q[0];
      BeforeIsIrreflexive(p[0]);
      forall w ensures w in p[1..] <==> w in q[1..] {
        TailMembers(p, w);
        TailMembers(q, w);
        assert w in p <==> w in Elements(p);
        assert w in q <==> w in Elements(q);
      }
      assert Elements(p[1..]) == Elements(q[1..]);
      PreorderListingIsUnique(p[1..], q[1..]);
    }
  }

  /** The listing of the search is the one and only preorder listing of the simple walks. */
  lemma WalksAreTheListing(g: Graph, t: TypeId, ws: seq<Walk>)
    requires g.Has(t)
    ensures (InPreorder(ws) && forall w :: w in ws <==> IsSimpleWalk(g, t, {}, w)) <==> ws == Walks(g, t, {})
  {
    WalksInPreorder(g, t, {});
    forall w ensures w in Walks(g, t, {}) <==> IsSimpleWalk(g, t, {}, w) {
      WalksExact(g, t, {}, w);
    }
    if InPreorder(ws) && forall w :: w in ws <==> IsSimpleWalk(g, t, {}, w) {
      assert forall w :: w in ws <==> w in Walks(g, t, {});
      assert Elements(ws) == Elements(Walks(g, t, {}));
      PreorderListingIsUnique(ws, Walks(g, t, {}));
    }
  }

  lemma HasElement<T>(s: seq<T>)
    requires s != []
    ensures s[0] in Elements(s) && Elements(s) != {}
  {
  }

  lemma TailMembers(p: seq<Walk>, w: Walk)
    requires p != [] && InPreorder(p)
    ensures w in p[1..] <==> w in p && w != p[0]
  {
    assert p == [p[0]] + p[1..];
    if p[0] in p[1..] {
      var i :| 0 <= i < |p[1..]| && p[1..][i] == p[0];
      assert Before(p[0], p[i + 1]);
      BeforeIsIrreflexive(p[0]);
      assert false;
    }
  }

  /** The descent is bounded: a simple walk is shorter than the number of types. */
  lemma SimpleWalkIsShort(g: Graph, t: TypeId, w: Walk)
    requires g.Has(t) && IsSimpleWalk(g, t, {}, w)
    ensures |w| < |g.types|
  {
    var s := Visited(g, t, w);
    CountDistinct(s);
    assert Elements(s) <= g.Ids();
    CountSubset(Elements(s), g.Ids());
  }

  // ---------------------------------------------------------------------------------------------
  // Records
  // ---------------------------------------------------------------------------------------------

  lemma ListedWalksAreWalks(g: Graph, t: TypeId, avoid: set<TypeId>)
    requires g.Has(t)
    ensures AreWalks(g, t, Walks(g, t, avoid))
    ensures t !in avoid ==> forall n :: 0 <= n <= |g.Edges(t)| ==> AreWalks(g, t, WalksThrough(g, t, avoid, n))
  {
    var ws := Walks(g, t, avoid);
    forall i | 0 <= i < |ws| ensures IsWalk(g, t, ws[i]) {
      WalksExact(g, t, avoid, ws[i]);
      assert ws[i] in ws;
    }
    if t !in avoid {
      forall n | 0 <= n <= |g.Edges(t)| ensures AreWalks(g, t, WalksThrough(g, t, avoid, n)) {
        var vs := WalksThrough(g, t, avoid, n);
        forall i | 0 <= i < |vs| ensures IsWalk(g, t, vs[i]) {
          WalksThroughExact(g, t, avoid, n, vs[i]);
          assert vs[i] in vs;
        }
      }
    }
  }

  /** Following an edge first is the same as starting at its target with its label already on the path. */
  lemma RecordStep(g: Graph, prefix: seq<string>, t: TypeId, k: nat, w: Walk)
    requires g.Has(t) && k < |g.Edges(t)| && IsWalk(g, g.EdgeAt(t, k).target, w)
    ensures IsWalk(g, t, [k] + w)
    ensures RecordOf(g, prefix, t, [k] + w)
         == RecordOf(g, prefix + [g.EdgeAt(t, k).name], g.EdgeAt(t, k).target, w)
  {
    var e := g.EdgeAt(t, k);
    WalkStep(g, t, k, w);
    hide IsWalk, Visited, Labels, JoinPath, Graph.Edges, Graph.Valid;
    Associate(prefix, [e.name], Labels(g, e.target, w));
  }

  /** What a walk goes through after its first edge. */
  lemma WalkStep(g: Graph, t: TypeId, k: nat, w: Walk)
    requires g.Has(t) && k < |g.Edges(t)| && IsWalk(g, g.EdgeAt(t, k).target, w)
    ensures IsWalk(g, t, [k] + w)
    ensures Visited(g, t, [k] + w) == [t] + Visited(g, g.EdgeAt(t, k).target, w)
    ensures Labels(g, t, [k] + w) == [g.EdgeAt(t, k).name] + Labels(g, g.EdgeAt(t, k).target, w)
  {
    assert ([k] + w)[1..] == w;
  }

  lemma RecordsUnder(g: Graph, prefix: seq<string>, t: TypeId, k: nat, ws: seq<Walk>)
    requires g.Has(t) && k < |g.Edges(t)| && AreWalks(g, g.EdgeAt(t, k).target, ws)
    ensures AreWalks(g, t, Under(k, ws))
    ensures RecordsOf(g, prefix, t, Under(k, ws))
         == RecordsOf(g, prefix + [g.EdgeAt(t, k).name], g.EdgeAt(t, k).target, ws)
  {
    forall i | 0 <= i < |ws|
      ensures IsWalk(g, t, Under(k, ws)[i])
      ensures RecordOf(g, prefix, t, Under(k, ws)[i])
           == RecordOf(g, prefix + [g.EdgeAt(t, k).name], g.EdgeAt(t, k).target, ws[i])
    {
      RecordStep(g, prefix, t, k, ws[i]);
    }
  }

  /** What searching one more edge adds to the records. */
  lemma RecordsExtend(g: Graph, prefix: seq<string>, t: TypeId, avoid: set<TypeId>, k: nat)
    requires g.Has(t) && t !in avoid && k < |g.Edges(t)|
    ensures var u, name := g.EdgeAt(t, k).target, g.EdgeAt(t, k).name;
            var front, more := [[]] + WalksThrough(g, t, avoid, k), Walks(g, u, avoid + {t});
            var all := [[]] + WalksThrough(g, t, avoid, k + 1);
            && AreWalks(g, t, front) && AreWalks(g, u, more) && AreWalks(g, t, all)
            && RecordsOf(g, prefix, t, all)
               == RecordsOf(g, prefix, t, front) + RecordsOf(g, prefix + [name], u, more)
  {
    var u := g.EdgeAt(t, k).target;
    var front, more := [[]] + WalksThrough(g, t, avoid, k), Walks(g, u, avoid + {t});
    ListedWalksAreWalks(g, t, avoid);
    ListedWalksAreWalks(g, u, avoid + {t});
    RecordsUnder(g, prefix, t, k, more);
    RecordsConcat(g, prefix, t, front, Under(k, more));
    Associate([[]], WalksThrough(g, t, avoid, k), Under(k, more));
  }

  lemma RecordsConcat(g: Graph, prefix: seq<string>, t: TypeId, a: seq<Walk>, b: seq<Walk>)
    requires g.Has(t) && AreWalks(g, t, a) && AreWalks(g, t, b)
    ensures AreWalks(g, t, a + b)
    ensures RecordsOf(g, prefix, t, a + b) == RecordsOf(g, prefix, t, a) + RecordsOf(g, prefix, t, b)
  {
  }

  // ---------------------------------------------------------------------------------------------
  // The class
  // ---------------------------------------------------------------------------------------------

  /** A search of tid in progress: the stacks and the output it started with. */
  datatype Search = Search(g: Graph, path: seq<string>, processed: seq<TypeId>, tid: TypeId,
                           before: seq<(TypeId, string)>) {
    ghost predicate Valid() {
      g.Has(tid) && tid !in processed
    }

    /** What the output holds once the first k edges of tid have been searched. */
    ghost predicate Gathered(k: nat, output: seq<(TypeId, string)>)
      requires Valid()
    {
      && k <= |g.Edges(tid)|
      && var ws := [[]] + WalksThrough(g, tid, Elements(processed), k);
         AreWalks(g, tid, ws) && output == before + RecordsOf(g, path, tid, ws)
    }

    /** How many edges come before those of attribute i, of the registered type j, and of aggregation i. */
    ghost function BeforeAttribute(i: nat): nat
      requires Valid() && i <= |g.types[tid].attributes|
    {
      |g.AttributeEdges(g.types[tid].attributes, i)|
    }

    ghost function BeforeChild(j: nat): nat
      requires Valid() && j <= |g.types|
    {
      BeforeAttribute(|g.types[tid].attributes|) + |g.ChildEdges(tid, j)|
    }

    ghost function BeforeAggregate(i: nat): nat
      requires Valid() && i <= |g.aggregates|
    {
      BeforeChild(|g.types|) + |g.AggregateEdges(tid, i)|
    }

    lemma EdgeNumbers()
      requires Valid()
      ensures BeforeAttribute(0) == 0 && BeforeAttribute(|g.types[tid].attributes|) == BeforeChild(0)
      ensures BeforeChild(|g.types|) == BeforeAggregate(0) && BeforeAggregate(|g.aggregates|) == |g.Edges(tid)|
    {
    }

    ghost predicate HasEdge(k: nat, e: Edge)
      requires Valid()
    {
      k < |g.Edges(tid)| && g.Edges(tid)[k] == e
    }

    lemma NextAttribute(i: nat)
      requires Valid() && i < |g.types[tid].attributes|
      ensures var k, here := BeforeAttribute(i), g.AttributeEdge(g.types[tid].attributes[i]);
              BeforeAttribute(i + 1) == k + |here| && (here != [] ==> HasEdge(k, here[0]))
    {
      g.AttributeEdgePosition(tid, i);
      hide Graph.Edges, Graph.AttributeEdges, Graph.Valid;
    }

    lemma NextChild(j: nat)
      requires Valid() && j < |g.types|
      ensures if (j, tid) in g.childOf then
                BeforeChild(j + 1) == BeforeChild(j) + 1 && HasEdge(BeforeChild(j), Edge("$" + g.types[j].name, j))
              else BeforeChild(j + 1) == BeforeChild(j)
    {
      g.ChildEdgePosition(tid, j);
      hide Graph.Edges, Graph.AttributeEdges, Graph.ChildEdges, Graph.Valid;
    }

    lemma NextAggregate(i: nat)
      requires Valid() && i < |g.aggregates|
      ensures var pair := g.aggregates[i];
              && pair.0 < |g.types| && pair.1 < |g.types| &&
              if pair.0 == tid || pair.1 == tid then
                var other := if pair.1 == tid then pair.0 else pair.1;
                && BeforeAggregate(i + 1) == BeforeAggregate(i) + 1
                && HasEdge(BeforeAggregate(i), Edge("$" + g.types[other].name, other))
              else BeforeAggregate(i + 1) == BeforeAggregate(i)
    {
      g.AggregateEdgePosition(tid, i);
      hide Graph.Edges, Graph.AttributeEdges, Graph.ChildEdges, Graph.AggregateEdges, Graph.Valid;
    }

    /** What the search of edge k will find, and what it adds. */
    lemma Push(k: nat, name: string, target: TypeId, output: seq<(TypeId, string)>)
      requires Valid() && HasEdge(k, Edge(name, target)) && Gathered(k, output)
      requires NoDuplicates(processed) && forall i :: 0 <= i < |processed| ==> processed[i] < |g.types|
      ensures target < |g.types| && NoDuplicates(processed + [tid])
      ensures Elements(processed + [tid]) == Elements(processed) + {tid}
      ensures g.Ids() - Elements(processed + [tid]) < g.Ids() - Elements(processed)
      ensures var more := Walks(g, target, Elements(processed + [tid]));
              AreWalks(g, target, more) && Gathered(k + 1, output + RecordsOf(g, path + [name], target, more))
    {
      g.EdgesRegistered(tid);
      AppendElement(processed, tid);
      assert tid in g.Ids() && tid !in Elements(processed);
      assert g.EdgeAt(tid, k) == Edge(name, target);
      Extend(k, output);
    }

    lemma Extend(k: nat, output: seq<(TypeId, string)>)
      requires Valid() && k < |g.Edges(tid)| && Gathered(k, output)
      ensures var u, name := g.EdgeAt(tid, k).target, g.EdgeAt(tid, k).name;
              var more := Walks(g, u, Elements(processed) + {tid});
              AreWalks(g, u, more) && Gathered(k + 1, output + RecordsOf(g, path + [name], u, more))
    {
      RecordsExtend(g, path, tid, Elements(processed), k);
      var front := [[]] + WalksThrough(g, tid, Elements(processed), k);
      var u, name := g.EdgeAt(tid, k).target, g.EdgeAt(tid, k).name;
      var added := RecordsOf(g, path + [name], u, Walks(g, u, Elements(processed) + {tid}));
      Associate(before, RecordsOf(g, path, tid, front), added);
    }
  }

  class StaticInformation {
    const types: seq<TypeInfo>
    const childOf: set<(TypeId, TypeId)>
    const objectType: TypeId
    var output: seq<(TypeId, string)>
    var currentPath: seq<string>
    var alreadyProcessed: seq<TypeId>
    var aggregates: seq<(TypeId, TypeId)>
    var noTids: seq<string>

    ghost function TheGraph(): Graph
      reads this`aggregates
    {
      Graph(types, childOf, objectType, aggregates)
    }

    ghost predicate Valid()
      reads this
    {
      && TheGraph().Valid()
      && NoDuplicates(alreadyProcessed)
      && (forall i :: 0 <= i < |alreadyProcessed| ==> alreadyProcessed[i] < |types|)
      && |currentPath| == |alreadyProcessed|
    }

    constructor (types: seq<TypeInfo>, childOf: set<(TypeId, TypeId)>, objectType: TypeId)
      requires Graph(types, childOf, objectType, []).Valid()
      ensures Valid() && TheGraph() == Graph(types, childOf, objectType, [])
      ensures output == [] && currentPath == [] && alreadyProcessed == [] && noTids == []
    {
      this.types, this.childOf, this.objectType := types, childOf, objectType;
      output, currentPath, alreadyProcessed, aggregates, noTids := [], [], [], [], [];
    }

    /** The registered type of that name, the first one if there are several. */
    function Lookup(name: string, n: nat): (r: int)
      requires n <= |types|
      ensures -1 <= r < n
      ensures r >= 0 ==> types[r].name == name && forall i :: 0 <= i < r ==> types[i].name != name
      ensures r < 0 ==> forall i :: 0 <= i < n ==> types[i].name != name
    {
      if n == 0 then -1
      else
        var r := Lookup(name, n - 1);
        if r >= 0 then r else if types[n - 1].name == name then n - 1 else -1
    }

    method RecordAggregationInfo(a: string, b: string)
      requires Valid()
      modifies this`aggregates, this`noTids
      ensures Valid()
      ensures var i, j := Lookup(a, |types|), Lookup(b, |types|);
              && aggregates == (if i >= 0 && j >= 0 then old(aggregates) + [(i, j)] else old(aggregates))
              && noTids == (if i < 0 then old(noTids) + [a] else if j < 0 then old(noTids) + [b] else old(noTids))
    {
      var aTid := Lookup(a, |types|);
      if aTid < 0 {
        noTids := noTids + [a];
        return;
      }
      var bTid := Lookup(b, |types|);
      if bTid < 0 {
        noTids := noTids + [b];
        return;
      }
      aggregates := aggregates + [(aTid, bTid)];
    }

    method GetCurrentPath() returns (path: string)
      ensures path == JoinPath(currentPath)
    {
      path := "";
      for i := 0 to |currentPath|
        invariant path == JoinPath(currentPath[..i])
      {
        path := path + "/" + currentPath[i];
        assert currentPath[..i + 1][..i] == currentPath[..i];
      }
      assert currentPath[..|currentPath|] == currentPath;
    }

    method RecordOutput(tid: TypeId)
      modifies this`output
      ensures output == old(output) + [(tid, JoinPath(currentPath))]
    {
      var path := GetCurrentPath();
      output := output + [(tid, path)];
    }

    method HasAlreadyBeenProcessed(tid: TypeId) returns (found: bool)
      ensures found <==> tid in alreadyProcessed
    {
      for i := 0 to |alreadyProcessed|
        invariant tid !in alreadyProcessed[..i]
      {
        if alreadyProcessed[i] == tid {
          return true;
        }
      }
      return false;
    }

    /** The paths recorded for tid, in recording order. */
    method Get(tid: TypeId) returns (paths: seq<string>)
      ensures paths == PathsFor(tid, output)
    {
      paths := [];
      for i := 0 to |output|
        invariant paths == PathsFor(tid, output[..i])
      {
        assert output[..i + 1][..i] == output[..i];
        if output[i].0 == tid {
          paths := paths + [output[i].1];
        }
      }
      assert output[..|output|] == output;
    }

    /** Both stacks, which every search returns as it found them. */
    ghost predicate Stacks(path: seq<string>, processed: seq<TypeId>)
      reads this`currentPath, this`alreadyProcessed
    {
      currentPath == path && alreadyProcessed == processed
    }

    /** One descent of the search along the k-th edge of tid: push the label and the type, search the
        target, pop both. */
    method Descend(ghost s: Search, tid: TypeId, name: string, target: TypeId, ghost k: nat)
      requires Valid() && s.Valid() && s.g == TheGraph() && s.tid == tid && Stacks(s.path, s.processed)
      requires s.HasEdge(k, Edge(name, target)) && s.Gathered(k, output)
      modifies this`output, this`currentPath, this`alreadyProcessed
      ensures Valid() && Stacks(s.path, s.processed) && s.Gathered(k + 1, output)
      decreases s.g.Ids() - Elements(s.processed), 0
    {
      hide Search.Gathered, Search.HasEdge, Graph.Edges, Graph.Valid, NoDuplicates, Elements, Walks, AreWalks;
      s.Push(k, name, target, output);
      currentPath := currentPath + [name];
      alreadyProcessed := alreadyProcessed + [tid];
      DoGather(target);
      alreadyProcessed := alreadyProcessed[..|alreadyProcessed| - 1];
      currentPath := currentPath[..|currentPath| - 1];
    }

    /** Appends one record per simple walk from tid that avoids the types being processed, in
        preorder, and leaves both stacks as it found them.  It ends on every graph. */
    method DoGather(tid: TypeId)
      requires Valid() && tid < |types|
      modifies this`output, this`currentPath, this`alreadyProcessed
      ensures Valid() && Stacks(old(currentPath), old(alreadyProcessed))
      ensures AreWalks(TheGraph(), tid, Walks(TheGraph(), tid, Elements(alreadyProcessed)))
      ensures output == old(output)
                      + RecordsOf(TheGraph(), currentPath, tid, Walks(TheGraph(), tid, Elements(alreadyProcessed)))
      decreases TheGraph().Ids() - Elements(alreadyProcessed), 3
    {
      ghost var s := Search(TheGraph(), currentPath, alreadyProcessed, tid, output);
      ListedWalksAreWalks(s.g, tid, Elements(alreadyProcessed));
      var found := HasAlreadyBeenProcessed(tid);
      if found {
        return;
      }
      RecordOutput(tid);
      assert currentPath + Labels(s.g, tid, []) == currentPath;
      GatherAttributes(s, tid);
      GatherChildren(s, tid);
      GatherAggregates(s, tid);
    }

    /** The first loop of DoGather: pointer and object-vector attributes. */
    method GatherAttributes(ghost s: Search, tid: TypeId)
      requires Valid() && s.Valid() && s.g == TheGraph() && s.tid == tid && Stacks(s.path, s.processed)
      requires s.Gathered(0, output)
      modifies this`output, this`currentPath, this`alreadyProcessed
      ensures Valid() && Stacks(s.path, s.processed) && s.Gathered(s.BeforeChild(0), output)
      decreases s.g.Ids() - Elements(s.processed), 2
    {
      hide Search.Gathered, Search.HasEdge, Search.BeforeAttribute, Search.BeforeChild, Search.BeforeAggregate,
           Graph.Edges, NoDuplicates, Elements;
      s.EdgeNumbers();
      var attributes := types[tid].attributes;
      for i := 0 to |attributes|
        invariant Valid() && Stacks(s.path, s.processed) && s.Gathered(s.BeforeAttribute(i), output)
      {
        s.NextAttribute(i);
        var info := attributes[i];
        match info.checker {
          case PointerTo(pointee) =>
            if pointee == objectType {
              continue;
            }
            Descend(s, tid, info.name, pointee, s.BeforeAttribute(i));
          case VectorOf(item) =>
            Descend(s, tid, info.name + "/[i]", item, s.BeforeAttribute(i));
          case Plain =>
        }
      }
    }

    /** The second loop of DoGather: the registered subclasses. */
    method GatherChildren(ghost s: Search, tid: TypeId)
      requires Valid() && s.Valid() && s.g == TheGraph() && s.tid == tid && Stacks(s.path, s.processed)
      requires s.Gathered(s.BeforeChild(0), output)
      modifies this`output, this`currentPath, this`alreadyProcessed
      ensures Valid() && Stacks(s.path, s.processed) && s.Gathered(s.BeforeAggregate(0), output)
      decreases s.g.Ids() - Elements(s.processed), 2
    {
      hide Search.Gathered, Search.HasEdge, Search.BeforeAttribute, Search.BeforeChild, Search.BeforeAggregate,
           Graph.Edges, NoDuplicates, Elements;
      s.EdgeNumbers();
      for j := 0 to |types|
        invariant Valid() && Stacks(s.path, s.processed) && s.Gathered(s.BeforeChild(j), output)
      {
        s.NextChild(j);
        if (j, tid) in childOf {
          Descend(s, tid, "$" + types[j].name, j, s.BeforeChild(j));
        }
      }
    }

    /** The third loop of DoGather: the recorded aggregations, in either direction. */
    method GatherAggregates(ghost s: Search, tid: TypeId)
      requires Valid() && s.Valid() && s.g == TheGraph() && s.tid == tid && Stacks(s.path, s.processed)
      requires s.Gathered(s.BeforeAggregate(0), output)
      modifies this`output, this`currentPath, this`alreadyProcessed
      ensures Valid() && Stacks(s.path, s.processed) && s.Gathered(|s.g.Edges(tid)|, output)
      decreases s.g.Ids() - Elements(s.processed), 2
    {
      hide Search.Gathered, Search.HasEdge, Search.BeforeAttribute, Search.BeforeChild, Search.BeforeAggregate,
           Graph.Edges, NoDuplicates, Elements;
      s.EdgeNumbers();
      for i := 0 to |aggregates|
        invariant Valid() && Stacks(s.path, s.processed) && s.g == TheGraph() && s.Gathered(s.BeforeAggregate(i), output)
      {
        GatherAggregate(s, tid, i);
      }
    }

    /** One turn of that loop. */
    method GatherAggregate(ghost s: Search, tid: TypeId, i: nat)
      requires Valid() && s.Valid() && s.g == TheGraph() && s.tid == tid && Stacks(s.path, s.processed)
      requires i < |aggregates| && s.Gathered(s.BeforeAggregate(i), output)
      modifies this`output, this`currentPath, this`alreadyProcessed
      ensures Valid() && Stacks(s.path, s.processed) && s.Gathered(s.BeforeAggregate(i + 1), output)
      decreases s.g.Ids() - Elements(s.processed), 1
    {
      hide Search.Gathered, Search.HasEdge, Search.BeforeAttribute, Search.BeforeChild, Search.BeforeAggregate,
           Graph.Edges, Graph.Valid, NoDuplicates, Elements;
      s.NextAggregate(i);
      var item := aggregates[i];
      if item.0 == tid || item.1 == tid {
        var other := 0;
        if item.0 == tid {
          other := item.1;
        }
        if item.1 == tid {
          other := item.0;
        }
        Descend(s, tid, "$" + types[other].name, other, s.BeforeAggregate(i));
      }
    }

    /** Gathers the paths of one root.  The container `Uniquefy` works on is a copy, so the
        repeated records stay and the order is the one of the search. */
    method Gather(tid: TypeId)
      requires Valid() && tid < |types| && alreadyProcessed == []
      modifies this`output, this`currentPath, this`alreadyProcessed
      ensures Valid() && alreadyProcessed == [] && currentPath == []
      ensures output == old(output) + RecordsFrom(TheGraph(), tid)
    {
      assert Elements(alreadyProcessed) == {};
      DoGather(tid);
    }

    /** Gathers the paths of every root of the configuration namespace. */
    method GatherRoots(roots: seq<TypeId>)
      requires Valid() && alreadyProcessed == [] && AllRegistered(TheGraph(), roots)
      modifies this`output, this`currentPath, this`alreadyProcessed
      ensures Valid() && alreadyProcessed == [] && currentPath == []
      ensures output == old(output) + Flatten(RootRecords(TheGraph(), roots), |roots|)
    {
      hide RecordsFrom;
      ghost var g, before := TheGraph(), output;
      ghost var lists := RootRecords(g, roots);
      for i := 0 to |roots|
        invariant Valid() && alreadyProcessed == [] && TheGraph() == g
        invariant output == before + Flatten(lists, i)
      {
        ghost var now := output;
        Gather(roots[i]);
        assert output == now + lists[i];
        Associate(before, Flatten(lists, i), lists[i]);
      }
      assert alreadyProcessed == [] && currentPath == [];
    }
  }

  ghost predicate AllRegistered(g: Graph, roots: seq<TypeId>) {
    forall i :: 0 <= i < |roots| ==> roots[i] < |g.types|
  }

  /** What gathering one root records. */
  ghost function RecordsFrom(g: Graph, t: TypeId): seq<(TypeId, string)>
    requires g.Has(t)
  {
    ListedWalksAreWalks(g, t, {});
    RecordsOf(g, [], t, Walks(g, t, {}))
  }

  /** What gathering each of the roots records. */
  ghost function RootRecords(g: Graph, roots: seq<TypeId>): (r: seq<seq<(TypeId, string)>>)
    requires g.Valid() && AllRegistered(g, roots)
    ensures |r| == |roots| && forall i :: 0 <= i < |r| ==> r[i] == RecordsFrom(g, roots[i])
  {
    seq(|roots|, i requires 0 <= i < |roots| => RecordsFrom(g, roots[i]))
  }

  /** The first n lists in a row. */
  ghost function Flatten<T>(lists: seq<seq<T>>, n: nat): seq<T>
    requires n <= |lists|
  {
    if n == 0 then [] else Flatten(lists, n - 1) + lists[n - 1]
  }

  lemma {:induction false} InFlattened<T>(lists: seq<seq<T>>, n: nat, x: T)
    requires n <= |lists|
    ensures x in Flatten(lists, n) <==> exists i :: 0 <= i < n && x in lists[i]
  {
    if n > 0 {
      InFlattened(lists, n - 1, x);
      InConcatenation(Flatten(lists, n - 1), lists[n - 1], x);
    }
  }

  /** w is a simple walk from t with that record. */
  ghost predicate Spells(g: Graph, t: TypeId, w: Walk, record: (TypeId, string))
    requires g.Has(t)
  {
    IsSimpleWalk(g, t, {}, w) && RecordOf(g, [], t, w) == record
  }

  lemma RecordsFromExact(g: Graph, t: TypeId, record: (TypeId, string))
    requires g.Has(t)
    ensures record in RecordsFrom(g, t) <==> exists w :: Spells(g, t, w, record)
  {
    ListedWalksAreWalks(g, t, {});
    var ws, rs := Walks(g, t, {}), RecordsFrom(g, t);
    hide IsWalk, Visited, Labels, Walks;
    if record in rs {
      var i :| 0 <= i < |rs| && rs[i] == record;
      WalksExact(g, t, {}, ws[i]);
      assert Spells(g, t, ws[i], record);
    }
    forall w | Spells(g, t, w, record) ensures record in rs {
      WalksExact(g, t, {}, w);
      var k :| 0 <= k < |ws| && ws[k] == w;
      assert rs[k] == record;
    }
  }

  /** The documented configuration paths of a type are exactly those that some simple walk from some
      root of the namespace spells. */
  lemma PathsOfTypeExact(g: Graph, roots: seq<TypeId>, tid: TypeId, path: string)
    requires g.Valid() && AllRegistered(g, roots)
    ensures path in PathsFor(tid, Flatten(RootRecords(g, roots), |roots|))
            <==> exists i, w :: 0 <= i < |roots| && Spells(g, roots[i], w, (tid, path))
  {
    hide RecordsFrom, Spells, PathsFor, Flatten, Graph.Valid;
    var lists := RootRecords(g, roots);
    PathsForExact(tid, path, Flatten(lists, |roots|));
    InFlattened(lists, |roots|, (tid, path));
    forall i | 0 <= i < |roots|
      ensures (tid, path) in lists[i] <==> exists w :: Spells(g, roots[i], w, (tid, path))
    {
      RecordsFromExact(g, roots[i], (tid, path));
    }
  }

  lemma {:induction false} PathsForExact(tid: TypeId, path: string, output: seq<(TypeId, string)>)
    ensures path in PathsFor(tid, output) <==> (tid, path) in output
  {
    if output != [] {
      var n := |output| - 1;
      PathsForExact(tid, path, output[..n]);
      assert output == output[..n] + [output[n]];
    }
  }

  function PathsFor(tid: TypeId, output: seq<(TypeId, string)>): seq<string> {
    if output == [] then []
    else
      var n := |output| - 1;
      PathsFor(tid, output[..n]) + if output[n].0 == tid then [output[n].1] else []
  }
}
