/** What several of the models need about sequences and sets. */
module Collections {

  datatype Option<T> = None | Some(value: T)

  ghost predicate NoDuplicates<T>(s: seq<T>) {
    forall i, j :: 0 <= i < j < |s| ==> s[i] != s[j]
  }

  ghost function Elements<T>(s: seq<T>): set<T> {
    set x | x in s
  }

  lemma AppendElement<T>(s: seq<T>, x: T)
    ensures Elements(s + [x]) == Elements(s) + {x}
  {
  }

  lemma InConcatenation<T>(a: seq<T>, b: seq<T>, x: T)
    ensures x in a + b <==> x in a || x in b
  {
  }

  lemma Associate<T>(a: seq<T>, b: seq<T>, c: seq<T>)
    ensures (a + b) + c == a + (b + c)
  {
  }

  lemma {:induction false} CountSubset<T>(a: set<T>, b: set<T>)
    requires a <= b
    ensures |a| <= |b|
    ensures |a| == |b| ==> a == b
  {
    if a != {} {
      var x :| x in a;
      CountSubset(a - {x}, b - {x});
    }
  }

  lemma {:induction false} CountDistinct<T>(s: seq<T>)
    requires NoDuplicates(s)
    ensures |Elements(s)| == |s|
  {
    if s == [] {
      assert Elements(s) == {};
    } else {
      var front, last := s[..|s| - 1], s[|s| - 1];
      CountDistinct(front);
      AppendElement(front, last);
      assert s == front + [last];
      assert last !in front;
    }
  }

  /** Pigeonhole: a list longer than its set of members repeats one. */
  lemma {:induction false} Repeats<T>(p: seq<T>, s: set<T>) returns (i: nat, j: nat)
    requires |p| > |s| && forall k :: 0 <= k < |p| ==> p[k] in s
    ensures i < j < |p| && p[i] == p[j]
  {
    var last := |p| - 1;
    if k :| 0 <= k < last && p[k] == p[last] {
      i, j := k, last;
    } else {
      i, j := Repeats(p[..last], s - {p[last]});
    }
  }

  /** How often x stands in s. */
  ghost function Occurrences<T>(s: seq<T>, x: T): nat {
    if s == [] then 0 else Occurrences(s[..|s| - 1], x) + if s[|s| - 1] == x then 1 else 0
  }

  lemma {:induction false} CountConcatenation<T>(a: seq<T>, b: seq<T>, x: T)
    ensures Occurrences(a + b, x) == Occurrences(a, x) + Occurrences(b, x)
  {
    if b == [] {
      assert a + b == a;
    } else {
      var front := b[..|b| - 1];
      CountConcatenation(a, front, x);
      assert (a + b)[..|a + b| - 1] == a + front;
    }
  }

  lemma CountOne<T>(y: T, x: T)
    ensures Occurrences([], x) == 0
    ensures Occurrences([y], x) == if y == x then 1 else 0
  {
    assert [y][..0] == [];
  }

  lemma {:induction false} CountMembers<T>(s: seq<T>, x: T)
    ensures Occurrences(s, x) > 0 <==> x in s
  {
    if s != [] {
      CountMembers(s[..|s| - 1], x);
      assert s == s[..|s| - 1] + [s[|s| - 1]];
    }
  }

  /** Something stands twice in a sequence exactly at two different places. */
  lemma {:induction false} CountPlaces<T>(s: seq<T>, x: T)
    ensures Occurrences(s, x) >= 2 <==> exists i, j :: 0 <= i < j < |s| && s[i] == x && s[j] == x
  {
    if s != [] {
      var front, last := s[..|s| - 1], |s| - 1;
      CountPlaces(front, x);
      CountMembers(front, x);
      if Occurrences(front, x) >= 2 {
        var i, j :| 0 <= i < j < |front| && front[i] == x && front[j] == x;
        assert s[i] == x && s[j] == x;
      } else if Occurrences(s, x) >= 2 {
        var i :| 0 <= i < |front| && front[i] == x;
        assert s[i] == x && s[last] == x;
      }
      if i, j :| 0 <= i < j < |s| && s[i] == x && s[j] == x {
        assert front[i] == x;
        assert j < last ==> front[j] == x;
      }
    }
  }
}
