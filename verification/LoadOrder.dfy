/** Library load order of bindings/python/ns__init__.py: `sort_to_dependencies` with its inner
    functions `modules_that_can_be_loaded` and `dependency_order`.

    The loader works in layers.  The specification does not: it speaks of dependency chains, of
    cycles and of layerings in general.
 */
module LoadOrder {
  import opened Collections

  type Library = string

  /** The libraries in the order in which they were found, and what each links to. */
  datatype Dependencies = Dependencies(keys: seq<Library>, linked: map<Library, seq<Library>>) {

    ghost predicate Valid() {
      && linked.Keys == Elements(keys)
      && forall i, j :: 0 <= i < j < |keys| ==> keys[i] != keys[j]
    }

    /** No library links to something that is not to be loaded. */
    ghost predicate Closed() {
      forall m, d :: m in linked && d in linked[m] ==> d in linked
    }

    /** p is a chain: each library links to the next one. */
    ghost predicate IsChain(p: seq<Library>) {
      p != [] && p[0] in linked && (|p| > 1 ==> p[1] in linked[p[0]] && IsChain(p[1..]))
    }

    ghost predicate IsCycle(p: seq<Library>) {
      IsChain(p) && |p| > 1 && p[0] == p[|p| - 1]
    }

    ghost predicate Acyclic() {
      forall p :: !IsCycle(p)
    }
  }

  ghost predicate Loadable(d: Dependencies, m: Library, loaded: set<Library>) {
    m in d.linked && forall x :: x in d.linked[m] ==> x in loaded
  }

  ghost function LoadableSet(d: Dependencies, loaded: set<Library>): set<Library> {
    set m | m in d.linked.Keys && Loadable(d, m, loaded)
  }

  // ---------------------------------------------------------------------------------------------
  // Layers
  // ---------------------------------------------------------------------------------------------

  /** What is loaded after n steps. */
  ghost function Loaded(d: Dependencies, n: nat): set<Library> {
    if n == 0 then {}
    else set m | m in d.linked.Keys && (m in Loaded(d, n - 1) || Loadable(d, m, Loaded(d, n - 1)))
  }

  lemma {:induction false} LoadedGrows(d: Dependencies, i: nat, n: nat)
    requires i <= n
    ensures Loaded(d, i) <= Loaded(d, n) <= d.linked.Keys
    decreases n
  {
    if i < n {
      LoadedGrows(d, i, n - 1);
    }
  }

  /** The step in which a library that gets loaded is loaded. */
  ghost predicate InStep(d: Dependencies, m: Library, k: nat) {
    m in Loaded(d, k + 1) && m !in Loaded(d, k)
  }

  lemma {:induction false} HasStep(d: Dependencies, m: Library, n: nat) returns (k: nat)
    requires m in Loaded(d, n)
    ensures k < n && InStep(d, m, k)
  {
    if m in Loaded(d, n - 1) {
      k := HasStep(d, m, n - 1);
    } else {
      k := n - 1;
    }
  }

  lemma StepIsUnique(d: Dependencies, m: Library, j: nat, k: nat)
    requires InStep(d, m, j) && InStep(d, m, k)
    ensures j == k
  {
    if j < k {
      LoadedGrows(d, j + 1, k);
    } else if k < j {
      LoadedGrows(d, k + 1, j);
    }
  }

  /** The exact layering: step 0 without dependencies, else one more than the latest dependency. */
  lemma StepOfLibrary(d: Dependencies, m: Library, k: nat)
    requires InStep(d, m, k)
    ensures m in d.linked
    ensures d.linked[m] == [] ==> k == 0
    ensures forall x, j: nat :: x in d.linked[m] && InStep(d, x, j) ==> j < k
    ensures forall x :: x in d.linked[m] ==> exists j: nat :: j < k && InStep(d, x, j)
    ensures k > 0 ==> exists x :: x in d.linked[m] && InStep(d, x, k - 1)
  {
    LoadedGrows(d, k, k + 1);
    assert Loadable(d, m, Loaded(d, k));
    forall x | x in d.linked[m] ensures exists j: nat :: j < k && InStep(d, x, j) {
      var j := HasStep(d, x, k);
    }
    forall x, j: nat | x in d.linked[m] && InStep(d, x, j) ensures j < k {
      var i := HasStep(d, x, k);
      StepIsUnique(d, x, i, j);
    }
    if k > 0 {
      LoadedGrows(d, k - 1, k);
      assert !Loadable(d, m, Loaded(d, k - 1));
      var x :| x in d.linked[m] && x !in Loaded(d, k - 1);
      assert InStep(d, x, k - 1);
    }
  }

  /** The step is the length of the longest dependency chain that starts at the library. */
  lemma {:induction false} StepIsLongestChain(d: Dependencies, m: Library, k: nat) returns (longest: seq<Library>)
    requires InStep(d, m, k)
    ensures d.IsChain(longest) && longest[0] == m && |longest| == k + 1
    ensures forall p :: d.IsChain(p) && p[0] == m ==> |p| <= k + 1
    decreases k
  {
    LoadedGrows(d, k + 1, k + 1);
    StepOfLibrary(d, m, k);
    longest := [m];
    if k > 0 {
      var x :| x in d.linked[m] && InStep(d, x, k - 1);
      var rest := StepIsLongestChain(d, x, k - 1);
      longest := [m] + rest;
    }
    forall p | d.IsChain(p) && p[0] == m ensures |p| <= k + 1 {
      ChainIsShort(d, p, k);
    }
  }

  lemma {:induction false} ChainIsShort(d: Dependencies, p: seq<Library>, k: nat)
    requires d.IsChain(p) && InStep(d, p[0], k)
    ensures |p| <= k + 1
    decreases |p|
  {
    StepOfLibrary(d, p[0], k);
    if |p| > 1 {
      var j: nat :| j < k && InStep(d, p[1], j);
      ChainIsShort(d, p[1..], j);
    }
  }

  /** Any way of putting every library after its dependencies. */
  ghost predicate IsLayering(d: Dependencies, layer: map<Library, nat>) {
    && d.linked.Keys <= layer.Keys
    && forall m, x :: m in d.linked && x in d.linked[m] && x in layer ==> layer[x] < layer[m]
  }

  /** No valid layering places a library earlier. */
  lemma {:induction false} StepIsEarliest(d: Dependencies, layer: map<Library, nat>, m: Library, k: nat)
    requires InStep(d, m, k) && IsLayering(d, layer)
    ensures m in layer && k <= layer[m]
    decreases k
  {
    hide InStep, Loaded;
    StepOfLibrary(d, m, k);
    if k > 0 {
      var x :| x in d.linked[m] && InStep(d, x, k - 1);
      StepIsEarliest(d, layer, x, k - 1);
    }
  }

  // ---------------------------------------------------------------------------------------------
  // When the loader gets through
  // ---------------------------------------------------------------------------------------------

  /** Every member of s links to a member of s. */
  ghost predicate LinksIntoItself(d: Dependencies, s: set<Library>) {
    s <= d.linked.Keys && forall m {:trigger LinksInto(d, m, s)} :: m in s ==> LinksInto(d, m, s)
  }

  ghost predicate LinksInto(d: Dependencies, m: Library, s: set<Library>) {
    m in d.linked && exists x :: x in d.linked[m] && x in s
  }

  /** If every member of a set links into the set, chains of every length start at each of them. */
  lemma {:induction false} ChainInside(d: Dependencies, s: set<Library>, m: Library, n: nat) returns (p: seq<Library>)
    requires LinksIntoItself(d, s) && m in s
    ensures d.IsChain(p) && p[0] == m && |p| == n + 1 && forall i :: 0 <= i < |p| ==> p[i] in s
    decreases n
  {
    if n == 0 {
      p := [m];
    } else {
      assert LinksInto(d, m, s);
      var x :| x in d.linked[m] && x in s;
      var q := ChainInside(d, s, x, n - 1);
      p := [m] + q;
    }
  }

  lemma CycleInside(d: Dependencies, s: set<Library>)
    requires s != {} && LinksIntoItself(d, s)
    ensures !d.Acyclic()
  {
    var m :| m in s;
    var p := ChainInside(d, s, m, |s|);
    var i, j := Repeats(p, s);
    SubChain(d, p, i, j + 1);
    assert d.IsCycle(p[i..j + 1]);
  }

  lemma {:induction false} SubChain(d: Dependencies, p: seq<Library>, i: nat, j: nat)
    requires d.IsChain(p) && i < j <= |p|
    ensures d.IsChain(p[i..j])
    decreases |p|
  {
    if i > 0 {
      SubChain(d, p[1..], i - 1, j - 1);
      assert p[1..][i - 1..j - 1] == p[i..j];
    } else if j > 1 {
      SubChain(d, p[1..], 0, j - 1);
      assert p[0..j][1..] == p[1..][0..j - 1];
    }
  }

  /** A step that loads nothing while libraries are pending implies a cycle or an outside dependency. */
  lemma StuckMeansCycle(d: Dependencies, n: nat)
    requires Loaded(d, n + 1) == Loaded(d, n) != d.linked.Keys
    ensures !(d.Closed() && d.Acyclic())
  {
    LoadedGrows(d, n, n);
    var s := d.linked.Keys - Loaded(d, n);
    assert d.linked.Keys == Loaded(d, n) + s;
    if d.Closed() {
      forall m | m in s ensures LinksInto(d, m, s) {
        assert m !in Loaded(d, n + 1);
        assert !Loadable(d, m, Loaded(d, n));
      }
      CycleInside(d, s);
    }
  }

  lemma StepLoads(d: Dependencies, n: nat)
    requires d.Closed() && d.Acyclic() && Loaded(d, n) != d.linked.Keys
    ensures |Loaded(d, n + 1)| > |Loaded(d, n)|
  {
    LoadedGrows(d, n, n + 1);
    if Loaded(d, n + 1) == Loaded(d, n) {
      StuckMeansCycle(d, n);
    }
    CountSubset(Loaded(d, n), Loaded(d, n + 1));
  }

  /** Progress: n steps load everything or at least n libraries. */
  lemma {:induction false} StepsLoad(d: Dependencies, n: nat)
    requires d.Closed() && d.Acyclic()
    ensures Loaded(d, n) == d.linked.Keys || |Loaded(d, n)| >= n
  {
    if n > 0 {
      StepsLoad(d, n - 1);
      LoadedGrows(d, n - 1, n);
      if Loaded(d, n - 1) != d.linked.Keys {
        StepLoads(d, n - 1);
      }
    }
  }

  /** Some number of steps loads every library exactly when no library links outside and there is no
      cycle; then as many steps as libraries are enough. */
  lemma LoadsExactlyWhenAcyclic(d: Dependencies)
    ensures (exists n :: Loaded(d, n) == d.linked.Keys) <==> d.Closed() && d.Acyclic()
    ensures d.Closed() && d.Acyclic() ==> Loaded(d, |d.linked.Keys|) == d.linked.Keys
  {
    if d.Closed() && d.Acyclic() {
      var n := |d.linked.Keys|;
      StepsLoad(d, n);
      LoadedGrows(d, n, n);
      CountSubset(Loaded(d, n), d.linked.Keys);
    }
    if n :| Loaded(d, n) == d.linked.Keys {
      forall m, x | m in d.linked && x in d.linked[m] ensures x in d.linked {
        var k := HasStep(d, m, n);
        StepOfLibrary(d, m, k);
        var j: nat :| j < k && InStep(d, x, j);
        LoadedGrows(d, j + 1, j + 1);
      }
      forall p ensures !d.IsCycle(p) {
        if d.IsCycle(p) {
          var k := HasStep(d, p[0], n);
          NeverOnCycle(d, p, k);
        }
      }
    }
  }

  lemma NeverOnCycle(d: Dependencies, p: seq<Library>, k: nat)
    requires d.IsCycle(p)
    ensures !InStep(d, p[0], k)
  {
    var rest := Unroll(d, p, k + 1);
    if InStep(d, p[0], k) {
      ChainIsShort(d, rest, k);
    }
  }

  /** A cycle can be walked round as often as wanted. */
  lemma {:induction false} Unroll(d: Dependencies, p: seq<Library>, n: nat) returns (q: seq<Library>)
    requires d.IsCycle(p)
    ensures d.IsChain(q) && q[0] == p[0] && |q| > n
  {
    q := p;
    if n > 0 {
      var r := Unroll(d, p, n - 1);
      q := p[..|p| - 1] + r;
      JoinChains(d, p, r);
    }
  }

  lemma {:induction false} JoinChains(d: Dependencies, p: seq<Library>, r: seq<Library>)
    requires d.IsChain(p) && d.IsChain(r) && p[|p| - 1] == r[0]
    ensures d.IsChain(p[..|p| - 1] + r)
    decreases |p|
  {
    if |p| == 1 {
      assert p[..0] + r == r;
    } else {
      JoinChains(d, p[1..], r);
      assert (p[..|p| - 1] + r)[1..] == p[1..][..|p| - 2] + r;
    }
  }

  // ---------------------------------------------------------------------------------------------
  // The lists
  // ---------------------------------------------------------------------------------------------

  /** The members of s that are in keep, in the order of s. */
  ghost function Select(s: seq<Library>, keep: set<Library>): seq<Library> {
    if s == [] then []
    else Select(s[..|s| - 1], keep) + if s[|s| - 1] in keep then [s[|s| - 1]] else []
  }

  lemma {:induction false} SelectMembers(s: seq<Library>, keep: set<Library>)
    ensures Elements(Select(s, keep)) == Elements(s) * keep
  {
    if s != [] {
      var front := s[..|s| - 1];
      SelectMembers(front, keep);
      AppendElement(front, s[|s| - 1]);
      assert s == front + [s[|s| - 1]];
      if s[|s| - 1] in keep {
        AppendElement(Select(front, keep), s[|s| - 1]);
        assert (Elements(front) + {s[|s| - 1]}) * keep == Elements(front) * keep + {s[|s| - 1]};
      } else {
        assert (Elements(front) + {s[|s| - 1]}) * keep == Elements(front) * keep;
      }
    }
  }

  lemma {:induction false} SelectTwice(s: seq<Library>, a: set<Library>, b: set<Library>)
    ensures Select(Select(s, a), b) == Select(s, a * b)
  {
    if s != [] {
      var front, last := s[..|s| - 1], s[|s| - 1];
      SelectTwice(front, a, b);
      if last in a {
        assert (Select(front, a) + [last])[..|Select(front, a)|] == Select(front, a);
      } else {
        assert Select(s, a) == Select(front, a);
      }
    }
  }

  lemma {:induction false} SelectAll(s: seq<Library>, keep: set<Library>)
    requires Elements(s) <= keep
    ensures Select(s, keep) == s
  {
    if s != [] {
      var front, last := s[..|s| - 1], s[|s| - 1];
      assert last in Elements(s);
      assert forall x :: x in front ==> x in Elements(s);
      SelectAll(front, keep);
    }
  }

  lemma {:induction false} SelectDistinct(s: seq<Library>, keep: set<Library>)
    requires NoDuplicates(s)
    ensures NoDuplicates(Select(s, keep))
  {
    if s != [] {
      var front, last := s[..|s| - 1], s[|s| - 1];
      SelectDistinct(front, keep);
      SelectMembers(front, keep);
      if last in keep {
        forall i | 0 <= i < |Select(front, keep)| ensures Select(front, keep)[i] != last {
          assert Select(front, keep)[i] in Elements(Select(front, keep));
        }
      }
    }
  }

  /** `list.remove`: without the first occurrence of m. */
  function Remove(s: seq<Library>, m: Library): seq<Library> {
    if s == [] then [] else if s[0] == m then s[1..] else [s[0]] + Remove(s[1..], m)
  }

  lemma {:induction false} RemoveFirst(s: seq<Library>, m: Library, all: set<Library>)
    requires NoDuplicates(s) && Elements(s) <= all
    ensures Remove(s, m) == Select(s, all - {m})
  {
    if s != [] {
      assert s == [s[0]] + s[1..];
      SelectConcat([s[0]], s[1..], all - {m});
      assert Select([s[0]], all - {m}) == if s[0] == m then [] else [s[0]] by {
        assert s[0] in Elements(s);
        assert [s[0]][..0] == [];
      }
      if s[0] == m {
        SelectAll(s[1..], all - {m});
      } else {
        RemoveFirst(s[1..], m, all);
      }
    }
  }

  lemma {:induction false} SelectConcat(a: seq<Library>, b: seq<Library>, keep: set<Library>)
    ensures Select(a + b, keep) == Select(a, keep) + Select(b, keep)
  {
    if b == [] {
      assert a + b == a;
    } else {
      var front, last := b[..|b| - 1], b[|b| - 1];
      assert (a + b)[..|a + b| - 1] == a + front;
      SelectConcat(a, front, keep);
    }
  }

  /** The libraries loaded in step k, in the order in which they were found. */
  ghost function StepList(d: Dependencies, k: nat): seq<Library> {
    Select(d.keys, Loaded(d, k + 1) - Loaded(d, k))
  }

  /** All the libraries loaded in the first n steps. */
  ghost function Flattened(d: Dependencies, n: nat): seq<Library> {
    if n == 0 then [] else Flattened(d, n - 1) + StepList(d, n - 1)
  }

  lemma {:induction false} FlattenedMembers(d: Dependencies, n: nat)
    requires d.Valid()
    ensures Elements(Flattened(d, n)) == Loaded(d, n)
  {
    if n > 0 {
      FlattenedMembers(d, n - 1);
      LoadedGrows(d, n - 1, n);
      LoadedGrows(d, n, n);
      SelectMembers(d.keys, Loaded(d, n) - Loaded(d, n - 1));
      var a, b := Flattened(d, n - 1), StepList(d, n - 1);
      assert Elements(a + b) == Elements(a) + Elements(b);
    }
  }

  /** Every library in the list comes after everything it links to, and no library comes twice. */
  ghost predicate InLoadOrder(d: Dependencies, list: seq<Library>) {
    && NoDuplicates(list)
    && forall i :: 0 <= i < |list| ==> list[i] in d.linked && Elements(d.linked[list[i]]) <= Elements(list[..i])
  }

  lemma {:induction false} FlattenedInLoadOrder(d: Dependencies, n: nat)
    requires d.Valid()
    ensures InLoadOrder(d, Flattened(d, n))
  {
    if n > 0 {
      FlattenedInLoadOrder(d, n - 1);
      FlattenedMembers(d, n - 1);
      StepListLoads(d, n - 1);
      hide InLoadOrder, NoDuplicates, Elements, StepList;
      AppendInLoadOrder(d, Flattened(d, n - 1), StepList(d, n - 1));
    }
  }

  lemma StepListLoads(d: Dependencies, n: nat)
    requires d.Valid()
    ensures NoDuplicates(StepList(d, n)) && Elements(StepList(d, n)) !! Loaded(d, n)
    ensures forall m :: m in Elements(StepList(d, n)) ==> m in d.linked && Elements(d.linked[m]) <= Loaded(d, n)
  {
    SelectMembers(d.keys, Loaded(d, n + 1) - Loaded(d, n));
    SelectDistinct(d.keys, Loaded(d, n + 1) - Loaded(d, n));
    forall m | m in Elements(StepList(d, n)) ensures m in d.linked && Elements(d.linked[m]) <= Loaded(d, n) {
      assert Loadable(d, m, Loaded(d, n));
    }
  }

  lemma AppendInLoadOrder(d: Dependencies, a: seq<Library>, b: seq<Library>)
    requires InLoadOrder(d, a) && NoDuplicates(b) && Elements(b) !! Elements(a)
    requires forall m :: m in Elements(b) ==> m in d.linked && Elements(d.linked[m]) <= Elements(a)
    ensures InLoadOrder(d, a + b)
  {
    var list := a + b;
    assert forall j :: 0 <= j < |b| ==> b[j] in Elements(b);
    assert forall j :: 0 <= j < |a| ==> a[j] in Elements(a);
    forall i | 0 <= i < |list| ensures list[i] in d.linked && Elements(d.linked[list[i]]) <= Elements(list[..i]) {
      if i < |a| {
        assert list[..i] == a[..i];
      } else {
        assert list[..i] == a + b[..i - |a|];
        assert Elements(a) <= Elements(list[..i]);
      }
    }
  }

  // ---------------------------------------------------------------------------------------------
  // The program
  // ---------------------------------------------------------------------------------------------

  /** The lists that `dependency_order` works on in place. */
  class Loader {
    const d: Dependencies
    var pending: seq<Library>
    var current: seq<Library>
    var steps: map<nat, seq<Library>>

    /** The state before step n. */
    ghost predicate AtStep(n: nat)
      reads this
    {
      && d.Valid()
      && current == Flattened(d, n)
      && pending == Select(d.keys, d.linked.Keys - Loaded(d, n))
      && (forall k: nat :: k in steps <==> k < n)
      && (forall k: nat :: k < n ==> steps[k] == StepList(d, k))
    }

    constructor (d: Dependencies)
      requires d.Valid()
      ensures AtStep(0) && this.d == d
    {
      this.d := d;
      pending, current, steps := d.keys, [], map[];
      new;
      SelectAll(d.keys, d.linked.Keys);
      assert d.linked.Keys - {} == d.linked.Keys;
    }

    method ModulesThatCanBeLoaded() returns (modules: seq<Library>)
      requires Elements(pending) <= d.linked.Keys
      ensures modules == Select(pending, LoadableSet(d, Elements(current)))
    {
      ghost var loadable := LoadableSet(d, Elements(current));
      modules := [];
      for i := 0 to |pending|
        invariant modules == Select(pending[..i], loadable)
      {
        assert pending[..i + 1][..i] == pending[..i];
        assert pending[i] in Elements(pending);
        var canBeLoaded := true;
        var links := d.linked[pending[i]];
        var j := 0;
        while j < |links| && canBeLoaded
          invariant 0 <= j <= |links|
          invariant canBeLoaded ==> forall x :: x in links[..j] ==> x in current
          invariant !canBeLoaded ==> exists x :: x in links && x !in current
        {
          if links[j] !in current {
            canBeLoaded := false;
          }
          j := j + 1;
        }
        assert canBeLoaded ==> links[..j] == links;
        assert canBeLoaded <==> pending[i] in loadable;
        if !canBeLoaded {
          continue;
        }
        modules := modules + [pending[i]];
      }
      assert pending[..|pending|] == pending;
    }

    /** One step: the loadable libraries of the moment, each moved from pending to current. */
    method LoadStep(n: nat)
      requires AtStep(n)
      modifies this
      ensures AtStep(n + 1)
    {
      StepSelects(d, n);
      if n !in steps {
        steps := steps[n := []];
      }
      var modules := ModulesThatCanBeLoaded();
      MoveAll(n, modules);
    }

    /** The loop over the libraries of a step. */
    method MoveAll(n: nat, modules: seq<Library>)
      requires d.Valid() && NoDuplicates(pending) && n in steps && steps[n] == []
      modifies this
      ensures current == old(current) + modules
      ensures pending == Select(old(pending), Elements(old(pending)) - Elements(modules))
      ensures steps == old(steps)[n := modules]
    {
      hide Select, Remove;
      ghost var before := pending;
      ghost var left := Elements(before);
      SelectAll(before, left - Elements(modules[..0]));
      for i := 0 to |modules|
        invariant current == old(current) + modules[..i]
        invariant pending == Select(before, left - Elements(modules[..i]))
        invariant steps == old(steps)[n := modules[..i]]
      {
        RemoveFromSelect(before, left - Elements(modules[..i]), modules[i]);
        assert modules[..i + 1] == modules[..i] + [modules[i]];
        assert left - Elements(modules[..i]) - {modules[i]} == left - Elements(modules[..i + 1]);
        steps := steps[n := steps[n] + [modules[i]]];
        pending := Remove(pending, modules[i]);
        current := current + [modules[i]];
      }
      assert modules[..|modules|] == modules;
    }

    /** The recursion; the number of steps is the least one that loads everything. */
    method DependencyOrder(n: nat) returns (depth: nat)
      requires AtStep(n) && d.Closed() && d.Acyclic()
      requires forall k :: 0 <= k < n ==> Loaded(d, k) != d.linked.Keys
      modifies this
      ensures AtStep(depth) && pending == [] && Loaded(d, depth) == d.linked.Keys
      ensures forall k :: 0 <= k < depth ==> Loaded(d, k) != d.linked.Keys
      decreases |pending|
    {
      hide Loaded, Flattened, StepList, Dependencies.Closed, Dependencies.Acyclic, Dependencies.Valid;
      NothingPending(d, n);
      if |pending| == 0 {
        return n;
      }
      PendingShrinks(d, n);
      LoadStep(n);
      depth := DependencyOrder(n + 1);
    }
  }

  /** What one step does to the lists. */
  lemma StepSelects(d: Dependencies, n: nat)
    requires d.Valid()
    ensures var pending := Select(d.keys, d.linked.Keys - Loaded(d, n));
            var current := Flattened(d, n);
            var loadable := LoadableSet(d, Elements(current));
            && NoDuplicates(pending) && Elements(pending) <= d.linked.Keys
            && Select(pending, loadable) == StepList(d, n)
            && Select(pending, Elements(pending) - Elements(StepList(d, n)))
               == Select(d.keys, d.linked.Keys - Loaded(d, n + 1))
  {
    var left := d.linked.Keys - Loaded(d, n);
    var next := Loaded(d, n + 1) - Loaded(d, n);
    LoadedNext(d, n);
    LoadedGrows(d, n + 1, n + 1);
    FlattenedMembers(d, n);
    PendingMembers(d, left);
    PendingMembers(d, next);
    SelectTwice(d.keys, left, LoadableSet(d, Loaded(d, n)));
    SelectTwice(d.keys, left, left - next);
    assert left * (left - next) == d.linked.Keys - Loaded(d, n + 1);
  }

  lemma PendingMembers(d: Dependencies, keep: set<Library>)
    requires d.Valid() && keep <= d.linked.Keys
    ensures Elements(Select(d.keys, keep)) == keep && NoDuplicates(Select(d.keys, keep))
  {
    SelectMembers(d.keys, keep);
    SelectDistinct(d.keys, keep);
  }

  lemma LoadedNext(d: Dependencies, n: nat)
    ensures var loadable := LoadableSet(d, Loaded(d, n));
            && (d.linked.Keys - Loaded(d, n)) * loadable == Loaded(d, n + 1) - Loaded(d, n)
            && Loaded(d, n) <= Loaded(d, n + 1)
  {
    LoadedGrows(d, n, n + 1);
  }

  lemma NothingPending(d: Dependencies, n: nat)
    requires d.Valid()
    ensures Select(d.keys, d.linked.Keys - Loaded(d, n)) == [] <==> Loaded(d, n) == d.linked.Keys
  {
    SelectCount(d.keys, d.linked.Keys - Loaded(d, n));
    LoadedGrows(d, n, n);
    assert d.linked.Keys == Loaded(d, n) + (d.linked.Keys - Loaded(d, n));
  }

  lemma RemoveFromSelect(s: seq<Library>, keep: set<Library>, m: Library)
    requires NoDuplicates(s)
    ensures Remove(Select(s, keep), m) == Select(s, keep - {m})
  {
    SelectDistinct(s, keep);
    SelectMembers(s, keep);
    RemoveFirst(Select(s, keep), m, keep);
    SelectTwice(s, keep, keep - {m});
    assert keep * (keep - {m}) == keep - {m};
  }

  /** Every step makes the pending list shorter. */
  lemma PendingShrinks(d: Dependencies, n: nat)
    requires d.Valid() && d.Closed() && d.Acyclic() && Loaded(d, n) != d.linked.Keys
    ensures |Select(d.keys, d.linked.Keys - Loaded(d, n + 1))| < |Select(d.keys, d.linked.Keys - Loaded(d, n))|
  {
    StepLoads(d, n);
    LoadedGrows(d, n, n + 1);
    LoadedGrows(d, n + 1, n + 1);
    SelectCount(d.keys, d.linked.Keys - Loaded(d, n));
    SelectCount(d.keys, d.linked.Keys - Loaded(d, n + 1));
  }

  lemma {:induction false} SelectCount(s: seq<Library>, keep: set<Library>)
    requires NoDuplicates(s) && keep <= Elements(s)
    ensures |Select(s, keep)| == |keep|
  {
    SelectDistinct(s, keep);
    SelectMembers(s, keep);
    CountDistinct(Select(s, keep));
    assert Elements(Select(s, keep)) == keep;
  }

  /** The longest dependency chain that starts at m has k links. */
  ghost predicate LongestChain(d: Dependencies, m: Library, k: nat) {
    && (exists p :: d.IsChain(p) && p[0] == m && |p| == k + 1)
    && (forall p :: d.IsChain(p) && p[0] == m ==> |p| <= k + 1)
  }

  ghost predicate FoundBefore(keys: seq<Library>, x: Library, y: Library) {
    exists p, q :: 0 <= p < q < |keys| && keys[p] == x && keys[q] == y
  }

  /** By the length of the longest chain, and where that is the same, in the order found. */
  ghost predicate SortedByChains(d: Dependencies, list: seq<Library>) {
    forall i, j, a: nat, b: nat ::
      0 <= i < j < |list| && LongestChain(d, list[i], a) && LongestChain(d, list[j], b)
      ==> a < b || (a == b && FoundBefore(d.keys, list[i], list[j]))
  }

  /** Where everything gets loaded the step is that length, and nothing else is. */
  lemma ChainIsStep(d: Dependencies, n: nat, m: Library, k: nat)
    requires Loaded(d, n) == d.linked.Keys && m in d.linked && LongestChain(d, m, k)
    ensures InStep(d, m, k)
  {
    var j := HasStep(d, m, n);
    var longest := StepIsLongestChain(d, m, j);
    var p :| d.IsChain(p) && p[0] == m && |p| == k + 1;
    assert j == k;
  }

  lemma {:induction false} SelectKeepsOrder(s: seq<Library>, keep: set<Library>, i: nat, j: nat)
    requires i < j < |Select(s, keep)|
    ensures FoundBefore(s, Select(s, keep)[i], Select(s, keep)[j])
  {
    var front := s[..|s| - 1];
    var before := Select(front, keep);
    assert forall k :: 0 <= k < |front| ==> front[k] == s[k];
    if j < |before| {
      SelectKeepsOrder(front, keep, i, j);
      var p, q :| 0 <= p < q < |front| && front[p] == before[i] && front[q] == before[j];
      assert s[p] == before[i] && s[q] == before[j];
    } else {
      SelectMembers(front, keep);
      assert before[i] in Elements(before);
      var p :| 0 <= p < |front| && front[p] == before[i];
      assert s[p] == before[i];
    }
  }

  lemma FlattenedParts(d: Dependencies, n: nat, i: nat)
    requires n > 0 && i < |Flattened(d, n)|
    ensures var p, q := Flattened(d, n - 1), StepList(d, n - 1);
            Flattened(d, n)[i] == if i < |p| then p[i] else q[i - |p|]
    ensures |Flattened(d, n)| == |Flattened(d, n - 1)| + |StepList(d, n - 1)|
  {
    hide StepList;
  }

  /** Every library of the list stands in the part of one of the steps. */
  lemma {:induction false} FlattenedSegment(d: Dependencies, n: nat, i: nat) returns (k: nat, m: nat)
    requires i < |Flattened(d, n)|
    ensures k < n && i == |Flattened(d, k)| + m && m < |StepList(d, k)| && Flattened(d, n)[i] == StepList(d, k)[m]
  {
    FlattenedParts(d, n, i);
    hide StepList;
    if i < |Flattened(d, n - 1)| {
      k, m := FlattenedSegment(d, n - 1, i);
    } else {
      k, m := n - 1, i - |Flattened(d, n - 1)|;
    }
  }

  /** The list is in the order found within each step. */
  lemma FlattenedFound(d: Dependencies, n: nat, i: nat, j: nat, a: nat)
    requires d.Valid() && i < j < |Flattened(d, n)|
    requires InStep(d, Flattened(d, n)[i], a) && InStep(d, Flattened(d, n)[j], a)
    ensures FoundBefore(d.keys, Flattened(d, n)[i], Flattened(d, n)[j])
  {
    hide Flattened, InStep, FoundBefore, Dependencies.Valid;
    var k, m := FlattenedSegment(d, n, i);
    var l, o := FlattenedSegment(d, n, j);
    StepListMember(d, k, m, a);
    StepListMember(d, l, o, a);
    SelectKeepsOrder(d.keys, Loaded(d, a + 1) - Loaded(d, a), m, o);
  }

  lemma FlattenedByChains(d: Dependencies, n: nat)
    requires d.Valid() && Loaded(d, n) == d.linked.Keys
    ensures SortedByChains(d, Flattened(d, n))
  {
    var list := Flattened(d, n);
    FlattenedMembers(d, n);
    hide Flattened, Loaded, LongestChain, FoundBefore, InStep;
    forall i, j, a: nat, b: nat | 0 <= i < j < |list| && LongestChain(d, list[i], a) && LongestChain(d, list[j], b)
      ensures a < b || (a == b && FoundBefore(d.keys, list[i], list[j]))
    {
      assert list[i] in Elements(list) && list[j] in Elements(list);
      ChainIsStep(d, n, list[i], a);
      ChainIsStep(d, n, list[j], b);
      FlattenedByStep(d, n, i, j, a, b);
      if a == b {
        FlattenedFound(d, n, i, j, a);
      }
    }
  }

  /** `sort_to_dependencies` from the dependency map on: each library once, after all it links to,
      the steps in the order of their numbers, and the libraries of a step as they were found. */
  method SortToDependencies(d: Dependencies) returns (sorted: seq<Library>)
    requires d.Valid() && d.Closed() && d.Acyclic()
    ensures sorted == Flattened(d, |d.keys|)
    ensures Elements(sorted) == d.linked.Keys && InLoadOrder(d, sorted) && ByStep(d, sorted)
    ensures |sorted| == |d.keys| && SortedByChains(d, sorted)
    ensures forall i :: 0 <= i < |sorted| ==> sorted[i] in d.linked && forall x :: x in d.linked[sorted[i]] ==> x in sorted[..i]
  {
    hide StepList, ByStep, InLoadOrder, SortedByChains, Elements, Dependencies.Acyclic, Dependencies.Closed;
    var loader := new Loader(d);
    var depth := loader.DependencyOrder(0);
    sorted := [];
    for k := 0 to depth
      invariant loader.AtStep(depth) && loader.d == d
      invariant sorted == Flattened(d, k)
    {
      sorted := sorted + loader.steps[k];
    }
    FlattenedMembers(d, depth);
    FlattenedInLoadOrder(d, depth);
    AsManyStepsAsLibraries(d, depth);
    FlattenedIsByStep(d, depth);
    FlattenedByChains(d, depth);
    SortedIsComplete(d, sorted);
  }

  lemma SortedIsComplete(d: Dependencies, sorted: seq<Library>)
    requires d.Valid() && Elements(sorted) == d.linked.Keys && InLoadOrder(d, sorted)
    ensures |sorted| == |d.keys|
    ensures forall i :: 0 <= i < |sorted| ==> sorted[i] in d.linked && forall x :: x in d.linked[sorted[i]] ==> x in sorted[..i]
  {
    CountDistinct(sorted);
    CountDistinct(d.keys);
    forall i | 0 <= i < |sorted|
      ensures sorted[i] in d.linked && forall x :: x in d.linked[sorted[i]] ==> x in sorted[..i]
    {
      assert forall x :: x in d.linked[sorted[i]] ==> x in Elements(d.linked[sorted[i]]);
    }
  }

  ghost predicate ByStep(d: Dependencies, list: seq<Library>) {
    forall i, j, a: nat, b: nat :: 0 <= i < j < |list| && InStep(d, list[i], a) && InStep(d, list[j], b) ==> a <= b
  }

  lemma FlattenedIsByStep(d: Dependencies, n: nat)
    requires d.Valid()
    ensures ByStep(d, Flattened(d, n))
  {
    var list := Flattened(d, n);
    forall i, j, a: nat, b: nat | 0 <= i < j < |list| && InStep(d, list[i], a) && InStep(d, list[j], b)
      ensures a <= b
    {
      FlattenedByStep(d, n, i, j, a, b);
    }
  }

  /** Steps after the last one that is needed are empty. */
  lemma {:induction false} NoMoreSteps(d: Dependencies, depth: nat, n: nat)
    requires Loaded(d, depth) == d.linked.Keys && depth <= n
    ensures Flattened(d, n) == Flattened(d, depth)
    decreases n
  {
    if depth < n {
      NoMoreSteps(d, depth, n - 1);
      LoadedGrows(d, depth, n - 1);
      LoadedGrows(d, depth, n);
      assert Loaded(d, n) - Loaded(d, n - 1) == {};
      SelectNothing(d.keys);
    }
  }

  lemma {:induction false} SelectNothing(s: seq<Library>)
    ensures Select(s, {}) == []
  {
    if s != [] {
      SelectNothing(s[..|s| - 1]);
    }
  }

  lemma AsManyStepsAsLibraries(d: Dependencies, depth: nat)
    requires d.Valid() && d.Closed() && d.Acyclic() && Loaded(d, depth) == d.linked.Keys
    requires forall k :: 0 <= k < depth ==> Loaded(d, k) != d.linked.Keys
    ensures Flattened(d, |d.keys|) == Flattened(d, depth)
  {
    CountDistinct(d.keys);
    LoadsExactlyWhenAcyclic(d);
    NoMoreSteps(d, depth, |d.keys|);
  }

  lemma {:induction false} FlattenedByStep(d: Dependencies, n: nat, i: nat, j: nat, a: nat, b: nat)
    requires d.Valid() && i < j < |Flattened(d, n)|
    requires InStep(d, Flattened(d, n)[i], a) && InStep(d, Flattened(d, n)[j], b)
    ensures a <= b
  {
    var p, q := Flattened(d, n - 1), StepList(d, n - 1);
    if j < |p| {
      FlattenedByStep(d, n - 1, i, j, a, b);
    } else {
      assert Flattened(d, n)[j] == q[j - |p|];
      StepListMember(d, n - 1, j - |p|, b);
      FlattenedBound(d, n, i, a);
    }
  }

  lemma FlattenedBound(d: Dependencies, n: nat, i: nat, a: nat)
    requires d.Valid() && i < |Flattened(d, n)| && InStep(d, Flattened(d, n)[i], a)
    ensures a < n
  {
    FlattenedMembers(d, n);
    var m := Flattened(d, n)[i];
    assert m in Elements(Flattened(d, n));
    var c := HasStep(d, m, n);
    StepIsUnique(d, m, a, c);
  }

  lemma StepListMember(d: Dependencies, n: nat, i: nat, k: nat)
    requires d.Valid() && i < |StepList(d, n)| && InStep(d, StepList(d, n)[i], k)
    ensures k == n
  {
    SelectMembers(d.keys, Loaded(d, n + 1) - Loaded(d, n));
    assert StepList(d, n)[i] in Elements(StepList(d, n));
    StepIsUnique(d, StepList(d, n)[i], k, n);
  }
}
