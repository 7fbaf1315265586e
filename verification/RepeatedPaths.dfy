/** When the search of utils/print-introspected-doxygen.cc records something twice.  The container that was
    meant to be made unique is a copy, so the repeated records stay; this module says exactly for which type
    graphs there are none. */
module RepeatedPaths {
  import opened Collections
  import opened ConfigPaths

  // ---------------------------------------------------------------------------------------------
  // Links
  // ---------------------------------------------------------------------------------------------

  /** How many of the first n aggregations link t with x. */
  function Aggregations(g: Graph, t: TypeId, x: TypeId, n: nat): nat
    requires n <= |g.aggregates|
  {
    if n == 0 then 0
    else Aggregations(g, t, x, n - 1) + if g.aggregates[n - 1] == (t, x) || g.aggregates[n - 1] == (x, t) then 1 else 0
  }

  /** How often t is linked with x, as an aggregate or as a subclass. */
  function Links(g: Graph, t: TypeId, x: TypeId): nat {
    Aggregations(g, t, x, |g.aggregates|) + if (x, t) in g.childOf then 1 else 0
  }

  /** The edge that each of these links gives. */
  ghost function TypeEdge(g: Graph, x: TypeId): Edge
    requires x < |g.types|
  {
    Edge("$" + g.types[x].name, x)
  }

  lemma OneAggregation(g: Graph, t: TypeId, pair: (TypeId, TypeId), x: TypeId)
    requires x < |g.types| && pair.0 < |g.types| && pair.1 < |g.types|
    ensures Occurrences(g.AggregateEdge(t, pair), TypeEdge(g, x)) == if pair == (t, x) || pair == (x, t) then 1 else 0
  {
    var edges := g.AggregateEdge(t, pair);
    if edges != [] {
      assert edges == [edges[0]];
      CountOne(edges[0], TypeEdge(g, x));
    }
  }

  lemma OneMoreAggregation(g: Graph, t: TypeId, x: TypeId, n: nat)
    requires g.Has(t) && x < |g.types| && n < |g.aggregates|
    ensures Occurrences(g.AggregateEdges(t, n + 1), TypeEdge(g, x)) - Occurrences(g.AggregateEdges(t, n), TypeEdge(g, x))
         == Aggregations(g, t, x, n + 1) - Aggregations(g, t, x, n)
  {
    var pair := g.aggregates[n];
    assert g.AggregateEdges(t, n + 1) == g.AggregateEdges(t, n) + g.AggregateEdge(t, pair);
    OneAggregation(g, t, pair, x);
    CountConcatenation(g.AggregateEdges(t, n), g.AggregateEdge(t, pair), TypeEdge(g, x));
  }

  lemma NoAggregation(g: Graph, t: TypeId, x: TypeId)
    requires g.Has(t) && x < |g.types|
    ensures Occurrences(g.AggregateEdges(t, 0), TypeEdge(g, x)) == Aggregations(g, t, x, 0) == 0
  {
    assert g.AggregateEdges(t, 0) == [];
  }

  lemma {:induction false} AggregationsCounted(g: Graph, t: TypeId, x: TypeId, n: nat)
    requires g.Has(t) && x < |g.types| && n <= |g.aggregates|
    ensures Occurrences(g.AggregateEdges(t, n), TypeEdge(g, x)) == Aggregations(g, t, x, n)
  {
    hide *;
    if n == 0 {
      NoAggregation(g, t, x);
    } else {
      AggregationsCounted(g, t, x, n - 1);
      OneMoreAggregation(g, t, x, n - 1);
    }
  }

  lemma OneMoreChild(g: Graph, t: TypeId, x: TypeId, n: nat)
    requires x < |g.types| && n < |g.types|
    ensures Occurrences(g.ChildEdges(t, n + 1), TypeEdge(g, x))
         == Occurrences(g.ChildEdges(t, n), TypeEdge(g, x)) + if x == n && (x, t) in g.childOf then 1 else 0
  {
    var here := if (n, t) in g.childOf then [TypeEdge(g, n)] else [];
    assert g.ChildEdges(t, n + 1) == g.ChildEdges(t, n) + here;
    CountConcatenation(g.ChildEdges(t, n), here, TypeEdge(g, x));
    CountOne(TypeEdge(g, n), TypeEdge(g, x));
  }

  lemma {:induction false} ChildrenCounted(g: Graph, t: TypeId, x: TypeId, n: nat)
    requires x < |g.types| && n <= |g.types|
    ensures Occurrences(g.ChildEdges(t, n), TypeEdge(g, x)) == if x < n && (x, t) in g.childOf then 1 else 0
  {
    if n > 0 {
      hide Occurrences;
      ChildrenCounted(g, t, x, n - 1);
      OneMoreChild(g, t, x, n - 1);
    } else {
      assert g.ChildEdges(t, n) == [];
    }
  }

  /** The edges of t count the links, and the attributes that look like one. */
  lemma LinksCounted(g: Graph, t: TypeId, x: TypeId)
    requires g.Has(t) && x < |g.types|
    ensures var attributes := g.types[t].attributes;
            Occurrences(g.Edges(t), TypeEdge(g, x))
            == Occurrences(g.AttributeEdges(attributes, |attributes|), TypeEdge(g, x)) + Links(g, t, x)
  {
    ChildrenCounted(g, t, x, |g.types|);
    AggregationsCounted(g, t, x, |g.aggregates|);
    var a, b, c := g.AttributeEdges(g.types[t].attributes, |g.types[t].attributes|), g.ChildEdges(t, |g.types|),
                   g.AggregateEdges(t, |g.aggregates|);
    CountConcatenation(a + b, c, TypeEdge(g, x));
    CountConcatenation(a, b, TypeEdge(g, x));
  }

  // ---------------------------------------------------------------------------------------------
  // Names
  // ---------------------------------------------------------------------------------------------

  ghost predicate CleanAttribute(name: string) {
    '/' !in name && name != "[i]" && (name == "" || name[0] != '$')
  }

  /** What the type registry sees to and what the names in it look like: types and the attributes of a type
      have different names, and no name contains what the paths use as separators and marks. */
  ghost predicate CleanNames(g: Graph) {
    && (forall t :: 0 <= t < |g.types| ==> '/' !in g.types[t].name && UniqueNames(g.types[t].attributes))
    && (forall t, u :: 0 <= t < u < |g.types| ==> g.types[t].name != g.types[u].name)
  }

  ghost predicate UniqueNames(attributes: seq<Attribute>) {
    && (forall i :: 0 <= i < |attributes| ==> CleanAttribute(attributes[i].name))
    && (forall i, j :: 0 <= i < j < |attributes| ==> attributes[i].name != attributes[j].name)
  }

  /** A label without a slash that is no index mark. */
  ghost predicate Base(text: string) {
    '/' !in text && text != "[i]"
  }

  ghost predicate CleanLabel(text: string) {
    Base(text) || exists base :: Base(base) && text == base + "/[i]"
  }

  ghost predicate OfAttribute(text: string, name: string) {
    text == name || text == name + "/[i]"
  }

  lemma {:induction false} AttributeOfEdge(g: Graph, attributes: seq<Attribute>, n: nat, e: Edge) returns (i: nat)
    requires n <= |attributes| && e in g.AttributeEdges(attributes, n)
    ensures i < n && g.AttributeEdge(attributes[i]) == [e] && OfAttribute(e.name, attributes[i].name)
  {
    InConcatenation(g.AttributeEdges(attributes, n - 1), g.AttributeEdge(attributes[n - 1]), e);
    if e in g.AttributeEdge(attributes[n - 1]) {
      i := n - 1;
    } else {
      i := AttributeOfEdge(g, attributes, n - 1, e);
    }
  }

  lemma {:induction false} ChildOfEdge(g: Graph, t: TypeId, n: nat, e: Edge)
    requires n <= |g.types| && e in g.ChildEdges(t, n)
    ensures e.target < |g.types| && e == TypeEdge(g, e.target)
  {
    if e in g.ChildEdges(t, n - 1) {
      ChildOfEdge(g, t, n - 1, e);
    }
  }

  /** An edge comes from an attribute or it leads to a subclass or an aggregated type. */
  lemma EdgeOrigin(g: Graph, t: TypeId, e: Edge)
    requires g.Has(t) && e in g.Edges(t)
    ensures var attributes := g.types[t].attributes;
            e in g.AttributeEdges(attributes, |attributes|) || (e.target < |g.types| && e == TypeEdge(g, e.target))
  {
    var a, b, c := g.AttributeEdges(g.types[t].attributes, |g.types[t].attributes|), g.ChildEdges(t, |g.types|),
                   g.AggregateEdges(t, |g.aggregates|);
    InConcatenation(a + b, c, e);
    InConcatenation(a, b, e);
    CountMembers(b, e);
    CountMembers(c, e);
    if e in b {
      ChildOfEdge(g, t, |g.types|, e);
    } else if e in c {
      AggregateEdgesExact(g, t, |g.aggregates|, e);
    }
  }

  lemma FirstSlash(a: string, x: string)
    requires '/' !in a
    ensures var s := a + "/" + x;
            s[|a|] == '/' && forall k :: 0 <= k < |a| ==> s[k] != '/'
  {
  }

  /** A text can be split at its first slash in one way only. */
  lemma SplitAtFirstSlash(a: string, x: string, b: string, y: string)
    requires '/' !in a && '/' !in b && a + "/" + x == b + "/" + y
    ensures a == b && x == y
  {
    FirstSlash(a, x);
    FirstSlash(b, y);
    var s := a + "/" + x;
    assert s[..|a|] == a && s[..|b|] == b && s[|a| + 1..] == x && s[|b| + 1..] == y;
  }

  /** The name is what stands before the index mark. */
  lemma SameName(a: string, b: string, text: string)
    requires CleanAttribute(a) && CleanAttribute(b) && OfAttribute(text, a) && OfAttribute(text, b)
    ensures a == b
  {
    assert a + "/[i]" == a + "/" + "[i]" && b + "/[i]" == b + "/" + "[i]";
    FirstSlash(a, "[i]");
    FirstSlash(b, "[i]");
    if text == a + "/[i]" == b + "/[i]" {
      SplitAtFirstSlash(a, "[i]", b, "[i]");
    }
  }

  lemma NoAttributeLabel(name: string, text: string)
    requires CleanAttribute(name) && OfAttribute(text, name)
    ensures text == "" || text[0] != '$'
  {
    assert (name + "/[i]")[0] == (if name == "" then "/[i]" else name)[0];
  }

  /** At each type a label stands for one edge only. */
  lemma LabelGivesEdge(g: Graph, t: TypeId, e: Edge, f: Edge)
    requires g.Has(t) && CleanNames(g) && e in g.Edges(t) && f in g.Edges(t) && e.name == f.name
    ensures e == f
  {
    var attributes := g.types[t].attributes;
    var n := |attributes|;
    EdgeOrigin(g, t, e);
    EdgeOrigin(g, t, f);
    if e in g.AttributeEdges(attributes, n) {
      var i := AttributeOfEdge(g, attributes, n, e);
      AttributeIsUnique(g, t, i, e, f);
    } else if f in g.AttributeEdges(attributes, n) {
      var i := AttributeOfEdge(g, attributes, n, f);
      AttributeIsUnique(g, t, i, f, e);
    } else {
      assert g.types[e.target].name == e.name[1..] == g.types[f.target].name;
    }
  }

  lemma AttributeIsUnique(g: Graph, t: TypeId, i: nat, e: Edge, f: Edge)
    requires g.Has(t) && CleanNames(g) && i < |g.types[t].attributes| && f in g.Edges(t) && e.name == f.name
    requires g.AttributeEdge(g.types[t].attributes[i]) == [e] && OfAttribute(e.name, g.types[t].attributes[i].name)
    ensures e == f
  {
    var attributes := g.types[t].attributes;
    assert UniqueNames(attributes);
    EdgeOrigin(g, t, f);
    if f in g.AttributeEdges(attributes, |attributes|) {
      var j := AttributeOfEdge(g, attributes, |attributes|, f);
      SameName(attributes[i].name, attributes[j].name, e.name);
      assert i == j;
    } else {
      NoAttributeLabel(attributes[i].name, e.name);
    }
  }

  /** No attribute gives an edge twice, and none gives the edge of a type. */
  lemma {:induction false} AttributesCounted(g: Graph, attributes: seq<Attribute>, n: nat, e: Edge)
    requires UniqueNames(attributes) && n <= |attributes|
    ensures Occurrences(g.AttributeEdges(attributes, n), e) <= 1
    ensures e.name != "" && e.name[0] == '$' ==> Occurrences(g.AttributeEdges(attributes, n), e) == 0
  {
    hide Occurrences, UniqueNames, Graph.AttributeEdges;
    if n == 0 {
      NoAttribute(g, attributes, e);
    } else {
      AttributesCounted(g, attributes, n - 1, e);
      OneMoreAttribute(g, attributes, n - 1, e);
      CountConcatenation(g.AttributeEdges(attributes, n - 1), g.AttributeEdge(attributes[n - 1]), e);
    }
  }

  lemma NoAttribute(g: Graph, attributes: seq<Attribute>, e: Edge)
    ensures Occurrences(g.AttributeEdges(attributes, 0), e) == 0
  {
    assert g.AttributeEdges(attributes, 0) == [];
  }

  lemma OneMoreAttribute(g: Graph, attributes: seq<Attribute>, n: nat, e: Edge)
    requires UniqueNames(attributes) && n < |attributes|
    ensures g.AttributeEdges(attributes, n + 1) == g.AttributeEdges(attributes, n) + g.AttributeEdge(attributes[n])
    ensures Occurrences(g.AttributeEdge(attributes[n]), e) <= 1
    ensures e in g.AttributeEdge(attributes[n]) ==> (e.name == "" || e.name[0] != '$') && e !in g.AttributeEdges(attributes, n)
    ensures e !in g.AttributeEdge(attributes[n]) ==> Occurrences(g.AttributeEdge(attributes[n]), e) == 0
    ensures e !in g.AttributeEdges(attributes, n) ==> Occurrences(g.AttributeEdges(attributes, n), e) == 0
  {
    var here := g.AttributeEdge(attributes[n]);
    if here != [] {
      assert here == [here[0]];
      CountOne(here[0], e);
    }
    CountMembers(g.AttributeEdges(attributes, n), e);
    if e in here {
      NoAttributeLabel(attributes[n].name, e.name);
      if e in g.AttributeEdges(attributes, n) {
        var i := AttributeOfEdge(g, attributes, n, e);
        SameName(attributes[i].name, attributes[n].name, e.name);
      }
    }
  }

  /** Two equal edges to x. */
  ghost predicate DoubleEdge(g: Graph, t: TypeId, x: TypeId, j: nat, k: nat)
    requires g.Has(t)
  {
    j < k < |g.Edges(t)| && g.Edges(t)[j] == g.Edges(t)[k] && g.Edges(t)[j].target == x
  }

  /** Two links make two equal edges, whatever the names. */
  lemma LinksMakeDoubleEdge(g: Graph, t: TypeId, x: TypeId) returns (j: nat, k: nat)
    requires g.Has(t) && x < |g.types| && Links(g, t, x) >= 2
    ensures DoubleEdge(g, t, x, j, k)
  {
    LinksCounted(g, t, x);
    CountPlaces(g.Edges(t), TypeEdge(g, x));
    j, k :| 0 <= j < k < |g.Edges(t)| && g.Edges(t)[j] == TypeEdge(g, x) && g.Edges(t)[k] == TypeEdge(g, x);
  }

  /** With clean names nothing else does. */
  lemma DoubleEdgeMeansLinks(g: Graph, t: TypeId, x: TypeId, j: nat, k: nat)
    requires g.Has(t) && CleanNames(g) && DoubleEdge(g, t, x, j, k)
    ensures x < |g.types| && Links(g, t, x) >= 2
  {
    var attributes := g.types[t].attributes;
    assert UniqueNames(attributes);
    var e := g.Edges(t)[j];
    assert e in g.Edges(t);
    CountPlaces(g.Edges(t), e);
    AttributesCounted(g, attributes, |attributes|, e);
    EdgeOrigin(g, t, e);
    if e in g.AttributeEdges(attributes, |attributes|) {
      OnlyAttribute(g, t, e);
    } else {
      LinksCounted(g, t, x);
    }
  }

  /** The edge of an attribute is none of a type. */
  lemma OnlyAttribute(g: Graph, t: TypeId, e: Edge)
    requires g.Has(t) && CleanNames(g) && e in g.AttributeEdges(g.types[t].attributes, |g.types[t].attributes|)
    ensures Occurrences(g.Edges(t), e) <= 1
  {
    var attributes := g.types[t].attributes;
    assert UniqueNames(attributes);
    var i := AttributeOfEdge(g, attributes, |attributes|, e);
    AttributesCounted(g, attributes, |attributes|, e);
    NoAttributeLabel(attributes[i].name, e.name);
    var a, b, c := g.AttributeEdges(attributes, |attributes|), g.ChildEdges(t, |g.types|), g.AggregateEdges(t, |g.aggregates|);
    CountConcatenation(a + b, c, e);
    CountConcatenation(a, b, e);
    CountMembers(b, e);
    CountMembers(c, e);
    if e in b {
      ChildOfEdge(g, t, |g.types|, e);
    }
    if e in c {
      AggregateEdgesExact(g, t, |g.aggregates|, e);
    }
  }

  // ---------------------------------------------------------------------------------------------
  // Paths can be read back
  // ---------------------------------------------------------------------------------------------

  ghost predicate CleanLabels(texts: seq<string>) {
    forall i :: 0 <= i < |texts| ==> CleanLabel(texts[i])
  }

  lemma EdgeLabelIsClean(g: Graph, t: TypeId, e: Edge)
    requires g.Has(t) && CleanNames(g) && e in g.Edges(t)
    ensures CleanLabel(e.name)
  {
    var attributes := g.types[t].attributes;
    EdgeOrigin(g, t, e);
    if e in g.AttributeEdges(attributes, |attributes|) {
      var i := AttributeOfEdge(g, attributes, |attributes|, e);
      assert UniqueNames(attributes);
      assert Base(attributes[i].name);
    } else {
      assert e.name[0] == '$';
      assert Base(e.name);
    }
  }

  lemma {:induction false} LabelsAreClean(g: Graph, t: TypeId, w: Walk)
    requires g.Has(t) && CleanNames(g) && IsWalk(g, t, w)
    ensures CleanLabels(Labels(g, t, w))
    decreases |w|
  {
    if w != [] {
      var e := g.EdgeAt(t, w[0]);
      assert e in g.Edges(t);
      EdgeLabelIsClean(g, t, e);
      LabelsAreClean(g, e.target, w[1..]);
    }
  }

  lemma LastSlash(x: string, a: string)
    requires '/' !in a
    ensures var s := x + "/" + a;
            s[|x|] == '/' && forall k :: |x| < k < |s| ==> s[k] != '/'
  {
  }

  /** A text can be split at its last slash in one way only. */
  lemma SplitAtLastSlash(x: string, a: string, y: string, b: string)
    requires '/' !in a && '/' !in b && x + "/" + a == y + "/" + b
    ensures x == y && a == b
  {
    LastSlash(x, a);
    LastSlash(y, b);
    var s := x + "/" + a;
    assert s[..|x|] == x && s[..|y|] == y && s[|x| + 1..] == a && s[|y| + 1..] == b;
  }

  /** So can it be split before its last clean label. */
  lemma SplitAtLastLabel(x: string, a: string, y: string, b: string)
    requires CleanLabel(a) && CleanLabel(b) && x + "/" + a == y + "/" + b
    ensures x == y && a == b
  {
    if Base(a) && Base(b) {
      SplitAtLastSlash(x, a, y, b);
    } else if Base(a) {
      SplitIndexed(y, b, x, a);
    } else if Base(b) {
      SplitIndexed(x, a, y, b);
    } else {
      var c :| Base(c) && a == c + "/[i]";
      var d :| Base(d) && b == d + "/[i]";
      Indexed(x, c);
      Indexed(y, d);
      SplitAtLastSlash(x + "/" + c, "[i]", y + "/" + d, "[i]");
      SplitAtLastSlash(x, c, y, d);
    }
  }

  lemma Indexed(x: string, c: string)
    ensures x + "/" + (c + "/[i]") == (x + "/" + c) + "/" + "[i]"
  {
    assert c + "/[i]" == c + "/" + "[i]";
  }

  /** An indexed label is not confused with a plain one. */
  lemma SplitIndexed(x: string, a: string, y: string, b: string)
    requires CleanLabel(a) && !Base(a) && Base(b)
    ensures x + "/" + a != y + "/" + b
  {
    var c :| Base(c) && a == c + "/[i]";
    Indexed(x, c);
    if x + "/" + a == y + "/" + b {
      SplitAtLastSlash(x + "/" + c, "[i]", y, b);
    }
  }

  /** A path tells its labels. */
  lemma {:induction false} PathTellsLabels(p: seq<string>, q: seq<string>)
    requires CleanLabels(p) && CleanLabels(q) && JoinPath(p) == JoinPath(q)
    ensures p == q
    decreases |p|
  {
    if p != [] && q != [] {
      var m, n := |p| - 1, |q| - 1;
      SplitAtLastLabel(JoinPath(p[..m]), p[m], JoinPath(q[..n]), q[n]);
      PathTellsLabels(p[..m], q[..n]);
      assert p == p[..m] + [p[m]] && q == q[..n] + [q[n]];
    }
  }

  // ---------------------------------------------------------------------------------------------
  // Where two walks with the same path part
  // ---------------------------------------------------------------------------------------------

  /** The type a walk ends at. */
  ghost function End(g: Graph, t: TypeId, w: Walk): (u: TypeId)
    requires g.Has(t) && IsWalk(g, t, w)
    ensures u < |g.types|
  {
    assert Visited(g, t, w)[|w|] in Visited(g, t, w);
    Visited(g, t, w)[|w|]
  }

  /** At the end of the simple walk p there are two equal edges, j and k, to a type that is neither on the
      walk nor to be avoided. */
  ghost predicate Fork(g: Graph, t: TypeId, avoid: set<TypeId>, p: Walk, j: nat, k: nat, x: TypeId)
    requires g.Has(t)
  {
    && IsSimpleWalk(g, t, avoid, p) && x !in Visited(g, t, p) && x !in avoid
    && DoubleEdge(g, End(g, t, p), x, j, k)
  }

  lemma ForkStep(g: Graph, t: TypeId, avoid: set<TypeId>, a: nat, p: Walk, j: nat, k: nat, x: TypeId)
    requires g.Has(t) && a < |g.Edges(t)|
    ensures Fork(g, t, avoid, [a] + p, j, k, x)
            <==> t !in avoid && Fork(g, g.EdgeAt(t, a).target, avoid + {t}, p, j, k, x)
  {
    SimpleWalkStep(g, t, avoid, a, p);
    assert ([a] + p)[1..] == p;
  }

  lemma OneStep(g: Graph, t: TypeId, avoid: set<TypeId>, j: nat)
    requires g.Has(t) && t !in avoid && j < |g.Edges(t)|
    requires g.EdgeAt(t, j).target !in avoid + {t}
    ensures IsSimpleWalk(g, t, avoid, [j])
    ensures End(g, t, [j]) == g.EdgeAt(t, j).target && Labels(g, t, [j]) == [g.EdgeAt(t, j).name]
  {
    var u := g.EdgeAt(t, j).target;
    assert [j] == [j] + [];
    assert Visited(g, u, []) == [u];
    SimpleWalkStep(g, t, avoid, j, []);
    WalkStep(g, t, j, []);
  }

  /** What two walks have in common that leave the same record. */
  ghost predicate Alike(g: Graph, t: TypeId, avoid: set<TypeId>, v: Walk, w: Walk)
    requires g.Has(t)
  {
    && IsSimpleWalk(g, t, avoid, v) && IsSimpleWalk(g, t, avoid, w)
    && Labels(g, t, v) == Labels(g, t, w) && End(g, t, v) == End(g, t, w)
  }

  lemma AlikeStep(g: Graph, t: TypeId, avoid: set<TypeId>, a: nat, v: Walk, w: Walk)
    requires g.Has(t) && a < |g.Edges(t)|
    ensures Alike(g, t, avoid, [a] + v, [a] + w)
            <==> t !in avoid && Alike(g, g.EdgeAt(t, a).target, avoid + {t}, v, w)
  {
    hide Visited, Labels, Graph.Edges, Graph.Valid, NoDuplicates, Elements;
    SimpleWalkStep(g, t, avoid, a, v);
    SimpleWalkStep(g, t, avoid, a, w);
    if IsWalk(g, g.EdgeAt(t, a).target, v) && IsWalk(g, g.EdgeAt(t, a).target, w) {
      WalkStep(g, t, a, v);
      WalkStep(g, t, a, w);
      var u, name := g.EdgeAt(t, a).target, g.EdgeAt(t, a).name;
      assert Labels(g, t, [a] + v)[1..] == Labels(g, u, v) && Labels(g, t, [a] + w)[1..] == Labels(g, u, w);
    }
  }

  lemma ForkFirst(g: Graph, t: TypeId, avoid: set<TypeId>, p: Walk, j: nat, k: nat, x: TypeId)
    requires g.Has(t) && p != [] && Fork(g, t, avoid, p, j, k, x)
    ensures p[0] < |g.Edges(t)|
  {
  }

  lemma ForkAtStart(g: Graph, t: TypeId, avoid: set<TypeId>, j: nat, k: nat, x: TypeId)
    requires g.Has(t) && Fork(g, t, avoid, [], j, k, x)
    ensures Alike(g, t, avoid, [j], [k])
  {
    assert Visited(g, t, []) == [t];
    StartIsOnWalk(g, t, []);
    assert g.EdgeAt(t, j) == g.EdgeAt(t, k);
    OneStep(g, t, avoid, j);
    OneStep(g, t, avoid, k);
  }

  /** Following either edge of a fork gives the same path to the same type. */
  lemma {:induction false} ForkIsAlike(g: Graph, t: TypeId, avoid: set<TypeId>, p: Walk, j: nat, k: nat, x: TypeId)
    requires g.Has(t) && Fork(g, t, avoid, p, j, k, x)
    ensures Alike(g, t, avoid, p + [j], p + [k])
    decreases |p|
  {
    if p == [] {
      ForkAtStart(g, t, avoid, j, k, x);
      assert p + [j] == [j] && p + [k] == [k];
    } else {
      ForkFirst(g, t, avoid, p, j, k, x);
      var a, rest := p[0], p[1..];
      assert p == [a] + rest;
      hide *;
      ForkStep(g, t, avoid, a, rest, j, k, x);
      ForkIsAlike(g, g.EdgeAt(t, a).target, avoid + {t}, rest, j, k, x);
      AlikeStep(g, t, avoid, a, rest + [j], rest + [k]);
      Associate([a], rest, [j]);
      Associate([a], rest, [k]);
    }
  }

  /** Two different walks with the same path part at a fork. */
  lemma {:induction false} AlikeMeansFork(g: Graph, t: TypeId, avoid: set<TypeId>, v: Walk, w: Walk)
    returns (p: Walk, j: nat, k: nat, x: TypeId)
    requires g.Has(t) && CleanNames(g) && Alike(g, t, avoid, v, w) && v != w
    ensures Fork(g, t, avoid, p, j, k, x)
    decreases |v|
  {
    assert |v| == |w|;
    var a, b := v[0], w[0];
    assert v == [a] + v[1..] && w == [b] + w[1..];
    SimpleWalkStep(g, t, avoid, a, v[1..]);
    SimpleWalkStep(g, t, avoid, b, w[1..]);
    if a == b {
      AlikeStep(g, t, avoid, a, v[1..], w[1..]);
      p, j, k, x := AlikeMeansFork(g, g.EdgeAt(t, a).target, avoid + {t}, v[1..], w[1..]);
      ForkStep(g, t, avoid, a, p, j, k, x);
      p := [a] + p;
    } else {
      SameFirstLabel(g, t, v, w);
      LabelGivesEdge(g, t, g.Edges(t)[a], g.Edges(t)[b]);
      p, x := [], g.EdgeAt(t, a).target;
      j, k := if a < b then a else b, if a < b then b else a;
      StartIsOnWalk(g, x, v[1..]);
      assert Visited(g, t, p) == [t];
      assert Elements(Visited(g, t, p)) == {t};
    }
  }

  lemma SameFirstLabel(g: Graph, t: TypeId, v: Walk, w: Walk)
    requires g.Has(t) && IsWalk(g, t, v) && IsWalk(g, t, w) && v != [] && w != []
    requires Labels(g, t, v) == Labels(g, t, w)
    ensures g.Edges(t)[v[0]].name == g.Edges(t)[w[0]].name
    ensures g.Edges(t)[v[0]] in g.Edges(t) && g.Edges(t)[w[0]] in g.Edges(t)
  {
    assert Labels(g, t, v)[0] == g.EdgeAt(t, v[0]).name && Labels(g, t, w)[0] == g.EdgeAt(t, w[0]).name;
  }

  lemma StartIsOnWalk(g: Graph, t: TypeId, w: Walk)
    requires g.Has(t) && IsWalk(g, t, w)
    ensures t in Elements(Visited(g, t, w))
  {
    assert Visited(g, t, w)[0] == t;
  }

  // ---------------------------------------------------------------------------------------------
  // Repeated records
  // ---------------------------------------------------------------------------------------------

  /** Two simple walks from t that leave the same record. */
  ghost predicate SameRecord(g: Graph, t: TypeId, v: Walk, w: Walk)
    requires g.Has(t)
  {
    IsSimpleWalk(g, t, {}, v) && IsSimpleWalk(g, t, {}, w) && RecordOf(g, [], t, v) == RecordOf(g, [], t, w)
  }

  lemma SameRecordRepeats(g: Graph, t: TypeId, v: Walk, w: Walk)
    requires g.Has(t) && SameRecord(g, t, v, w) && v != w
    ensures !NoDuplicates(RecordsFrom(g, t))
  {
    ListedWalksAreWalks(g, t, {});
    var ws, rs := Walks(g, t, {}), RecordsFrom(g, t);
    WalksExact(g, t, {}, v);
    WalksExact(g, t, {}, w);
    hide IsWalk, IsSimpleWalk, Walks, Visited, Labels;
    var a :| 0 <= a < |ws| && ws[a] == v;
    var b :| 0 <= b < |ws| && ws[b] == w;
    assert rs[a] == rs[b];
    assert a < b || b < a;
  }

  lemma RepeatMeansSameRecord(g: Graph, t: TypeId) returns (v: Walk, w: Walk)
    requires g.Has(t) && !NoDuplicates(RecordsFrom(g, t))
    ensures SameRecord(g, t, v, w) && v != w
  {
    ListedWalksAreWalks(g, t, {});
    WalksInPreorder(g, t, {});
    var ws, rs := Walks(g, t, {}), RecordsFrom(g, t);
    var a, b :| 0 <= a < b < |rs| && rs[a] == rs[b];
    v, w := ws[a], ws[b];
    assert Before(v, w);
    BeforeIsIrreflexive(v);
    WalksExact(g, t, {}, v);
    WalksExact(g, t, {}, w);
  }

  /** A repeated record is one path to one type, spelled by two simple walks. */
  lemma RepeatExactly(g: Graph, t: TypeId)
    requires g.Has(t)
    ensures NoDuplicates(RecordsFrom(g, t)) <==> forall v, w :: SameRecord(g, t, v, w) ==> v == w
  {
    hide SameRecord, NoDuplicates, RecordsFrom;
    if !NoDuplicates(RecordsFrom(g, t)) {
      var v, w := RepeatMeansSameRecord(g, t);
    }
    forall v, w | SameRecord(g, t, v, w) && v != w ensures !NoDuplicates(RecordsFrom(g, t)) {
      SameRecordRepeats(g, t, v, w);
    }
  }

  lemma AlikeRepeats(g: Graph, t: TypeId, v: Walk, w: Walk)
    requires g.Has(t) && Alike(g, t, {}, v, w) && v != w
    ensures !NoDuplicates(RecordsFrom(g, t))
  {
    hide IsWalk, Visited, Labels, RecordsFrom, JoinPath;
    SameRecordRepeats(g, t, v, w);
  }

  lemma RepeatIsAlike(g: Graph, t: TypeId) returns (v: Walk, w: Walk)
    requires g.Has(t) && CleanNames(g) && !NoDuplicates(RecordsFrom(g, t))
    ensures Alike(g, t, {}, v, w) && v != w
  {
    v, w := RepeatMeansSameRecord(g, t);
    hide IsWalk, Visited, Labels, RecordsFrom;
    LabelsAreClean(g, t, v);
    LabelsAreClean(g, t, w);
    NoPrefix(Labels(g, t, v));
    NoPrefix(Labels(g, t, w));
    PathTellsLabels(Labels(g, t, v), Labels(g, t, w));
  }

  lemma NoPrefix(texts: seq<string>)
    ensures [] + texts == texts
  {
  }

  /** A simple walk from t leads to a type that is linked at least twice with x, which is not on the walk. */
  ghost predicate LeadsToDoubleLink(g: Graph, t: TypeId, p: Walk, x: TypeId)
    requires g.Has(t)
  {
    && IsSimpleWalk(g, t, {}, p) && x < |g.types| && x !in Visited(g, t, p)
    && Links(g, End(g, t, p), x) >= 2
  }

  /** A double link repeats records, whatever the names. */
  lemma DoubleLinkRepeats(g: Graph, t: TypeId, p: Walk, x: TypeId)
    requires g.Has(t) && LeadsToDoubleLink(g, t, p, x)
    ensures !NoDuplicates(RecordsFrom(g, t))
  {
    hide IsWalk, Visited, Links;
    var j, k := LinksMakeDoubleEdge(g, End(g, t, p), x);
    ForkIsAlike(g, t, {}, p, j, k, x);
    assert (p + [j])[|p|] == j && (p + [k])[|p|] == k;
    AlikeRepeats(g, t, p + [j], p + [k]);
  }

  /** Two equal edges of a root repeat records, if a simple walk follows them. */
  lemma RepeatedEdgeRepeatsRecords(g: Graph, t: TypeId, j: nat, k: nat, w: Walk)
    requires g.Has(t) && j < k < |g.Edges(t)| && g.Edges(t)[j] == g.Edges(t)[k]
    requires IsSimpleWalk(g, t, {}, [j] + w)
    ensures AreWalks(g, t, Walks(g, t, {}))
    ensures !NoDuplicates(RecordsOf(g, [], t, Walks(g, t, {})))
  {
    ListedWalksAreWalks(g, t, {});
    var x := g.EdgeAt(t, j).target;
    SimpleWalkStep(g, t, {}, j, w);
    StartIsOnWalk(g, x, w);
    assert Visited(g, t, []) == [t];
    ForkAtStart(g, t, {}, j, k, x);
    AlikeRepeats(g, t, [j], [k]);
  }

  /** Exactly when: with the names the registry has, the records of a root are distinct if and only if no
      simple walk leads to a type that is linked twice, by aggregations or as a parent and by an aggregation,
      with a type off the walk. */
  lemma DistinctRecordsExactly(g: Graph, t: TypeId)
    requires g.Has(t) && CleanNames(g)
    ensures NoDuplicates(RecordsFrom(g, t)) <==> forall p, x :: !LeadsToDoubleLink(g, t, p, x)
  {
    hide IsWalk, Visited, Links, RecordsFrom, CleanNames;
    forall p, x | LeadsToDoubleLink(g, t, p, x) ensures !NoDuplicates(RecordsFrom(g, t)) {
      DoubleLinkRepeats(g, t, p, x);
    }
    if !NoDuplicates(RecordsFrom(g, t)) {
      var v, w := RepeatIsAlike(g, t);
      var p, j, k, x := AlikeMeansFork(g, t, {}, v, w);
      DoubleEdgeMeansLinks(g, End(g, t, p), x, j, k);
      assert LeadsToDoubleLink(g, t, p, x);
    }
  }

  lemma EndIsOnWalk(g: Graph, t: TypeId, w: Walk)
    requires g.Has(t) && IsWalk(g, t, w)
    ensures End(g, t, w) in Visited(g, t, w)
  {
  }

  /** No search is needed where no two types are linked twice. */
  lemma SingleLinksAreEnough(g: Graph, t: TypeId)
    requires g.Has(t) && CleanNames(g)
    requires forall u, x :: 0 <= u < |g.types| && 0 <= x < |g.types| && u != x ==> Links(g, u, x) <= 1
    ensures NoDuplicates(RecordsFrom(g, t))
  {
    DistinctRecordsExactly(g, t);
    forall p, x ensures !LeadsToDoubleLink(g, t, p, x) {
      if IsSimpleWalk(g, t, {}, p) {
        EndIsOnWalk(g, t, p);
      }
    }
  }

  /** Recording an aggregation of a root twice is enough. */
  lemma RepeatedAggregationRepeatsRecords(g: Graph, t: TypeId, x: TypeId, i: nat, j: nat)
    requires g.Has(t) && t != x && i < j < |g.aggregates|
    requires g.aggregates[i] == (t, x) || g.aggregates[i] == (x, t)
    requires g.aggregates[j] == (t, x) || g.aggregates[j] == (x, t)
    ensures !NoDuplicates(RecordsFrom(g, t))
  {
    AtLeastTwo(g, t, x, i, j, |g.aggregates|);
    assert Visited(g, t, []) == [t];
    assert LeadsToDoubleLink(g, t, [], x);
    DoubleLinkRepeats(g, t, [], x);
  }

  lemma {:induction false} AtLeastTwo(g: Graph, t: TypeId, x: TypeId, i: nat, j: nat, n: nat)
    requires i < j < |g.aggregates| && n <= |g.aggregates|
    requires g.aggregates[i] == (t, x) || g.aggregates[i] == (x, t)
    requires g.aggregates[j] == (t, x) || g.aggregates[j] == (x, t)
    ensures Aggregations(g, t, x, n) >= (if i < n then 1 else 0) + (if j < n then 1 else 0)
  {
    if n > 0 {
      AtLeastTwo(g, t, x, i, j, n - 1);
    }
  }

  /** A node and a protocol, aggregated twice, as the two equal statements of the program do. */
  lemma NodeAndProtocolRepeat()
    ensures var g := Graph([TypeInfo("ns3::Node", []), TypeInfo("ns3::Icmpv4L4Protocol", []),
                      TypeInfo("ns3::Object", [])], {(0, 2), (1, 2)}, 2, [(0, 1), (0, 1)]);
            g.Has(0) && !NoDuplicates(RecordsFrom(g, 0))
  {
    var g := Graph([TypeInfo("ns3::Node", []), TypeInfo("ns3::Icmpv4L4Protocol", []),
                      TypeInfo("ns3::Object", [])], {(0, 2), (1, 2)}, 2, [(0, 1), (0, 1)]);
    RepeatedAggregationRepeatsRecords(g, 0, 1, 0, 1);
  }
}
