/** The depth of the IAB nodes below the donor, from the topology trace: the two depth mappings of
    metrics_common.py. */
module IabDepth {
  import opened Collections

  datatype Row = Row(cellId: int, parentCellId: int)

  /** The parent in the first row of a cell; no such row is an IndexError. */
  function Parent(table: seq<Row>, c: int): (p: Option<int>)
    ensures p.Some? <==> exists i :: 0 <= i < |table| && table[i].cellId == c
  {
    if table == [] then None
    else if table[0].cellId == c then Some(table[0].parentCellId)
    else
      var p := Parent(table[1..], c);
      assert forall i :: 0 <= i < |table| - 1 ==> table[1..][i] == table[i + 1];
      p
  }

  /** The k-th ancestor of c, unless the way up leaves the table. */
  ghost function Up(table: seq<Row>, c: int, k: nat): Option<int> {
    if k == 0 then Some(c)
    else
      match Up(table, c, k - 1)
      case None => None
      case Some(b) => Parent(table, b)
  }

  /** d is the number of parent hops from c to the first arrival at the donor. */
  ghost predicate DepthIs(table: seq<Row>, donor: int, c: int, d: nat) {
    d > 0 && Up(table, c, d) == Some(donor) && forall j :: 0 < j < d ==> Up(table, c, j) != Some(donor)
  }

  /** Row i is the first row of cell c, the one that the lookup takes. */
  ghost predicate FirstRow(table: seq<Row>, i: nat, c: int) {
    i < |table| && table[i].cellId == c && forall j :: 0 <= j < i ==> table[j].cellId != c
  }

  /** The parent is the one in the first row of the cell. */
  lemma {:induction false} ParentExact(table: seq<Row>, c: int, p: int)
    ensures Parent(table, c) == Some(p) <==> exists i: nat :: FirstRow(table, i, c) && table[i].parentCellId == p
  {
    if table != [] {
      var rest := table[1..];
      ParentExact(rest, c, p);
      if table[0].cellId == c {
        assert FirstRow(table, 0, c);
      } else {
        forall i: nat ensures FirstRow(rest, i, c) <==> FirstRow(table, i + 1, c) {
          assert i < |rest| ==> rest[i] == table[i + 1];
          if FirstRow(rest, i, c) {
            forall j | 0 <= j < i + 1 ensures table[j].cellId != c {
              assert j > 0 ==> rest[j - 1] == table[j];
            }
          }
          if FirstRow(table, i + 1, c) {
            forall j | 0 <= j < i ensures rest[j].cellId != c {
              assert rest[j] == table[j + 1];
            }
          }
        }
        if i: nat :| FirstRow(rest, i, c) && rest[i].parentCellId == p {
          assert FirstRow(table, i + 1, c) && table[i + 1] == rest[i];
        }
        if i: nat :| FirstRow(table, i, c) && table[i].parentCellId == p {
          assert i > 0;
          assert FirstRow(rest, i - 1, c) && rest[i - 1] == table[i];
        }
      }
    }
  }

  /** rows are the rows that lead from c to the donor: the first row of c, the first row of the parent it
      names, and so on, up to a row that names the donor. */
  ghost predicate LeadsToDonor(table: seq<Row>, donor: int, c: int, rows: seq<nat>)
    decreases |rows|
  {
    && rows != [] && FirstRow(table, rows[0], c)
    && (if |rows| == 1 then table[rows[0]].parentCellId == donor
        else table[rows[0]].parentCellId != donor && LeadsToDonor(table, donor, table[rows[0]].parentCellId, rows[1..]))
  }

  /** d rows lead from c to the donor. */
  ghost predicate RowsToDonor(table: seq<Row>, donor: int, c: int, d: nat) {
    exists rows :: |rows| == d && LeadsToDonor(table, donor, c, rows)
  }

  /** The walk from c comes to an end after k hops: at the donor or outside the table. */
  ghost predicate EndsAt(table: seq<Row>, donor: int, c: int, k: nat) {
    k > 0 && (Up(table, c, k) == Some(donor) || Up(table, c, k) == None)
  }

  /** The way up from c leads back to c after k hops without passing the donor. */
  ghost predicate Loop(table: seq<Row>, donor: int, c: int, k: nat) {
    k > 0 && Up(table, c, k) == Some(c) && forall j :: 0 < j <= k ==> Up(table, c, j) != Some(donor)
  }

  /** No cell is its own ancestor, unless the donor comes on the way. */
  ghost predicate NoLoops(table: seq<Row>, donor: int) {
    forall c, k: nat :: !Loop(table, donor, c, k)
  }

  ghost predicate Reaches(table: seq<Row>, donor: int, c: int) {
    exists d: nat :: DepthIs(table, donor, c, d)
  }

  /** The table is a tree rooted at the donor: every way up leads there. */
  ghost predicate RootedAt(table: seq<Row>, donor: int) {
    forall i :: 0 <= i < |table| ==> Reaches(table, donor, table[i].cellId)
  }

  // ---------------------------------------------------------------------------------------------
  // Depths
  // ---------------------------------------------------------------------------------------------

  lemma {:induction false} UpAdds(table: seq<Row>, c: int, i: nat, k: nat)
    requires Up(table, c, i).Some?
    ensures Up(table, c, i + k) == Up(table, Up(table, c, i).value, k)
  {
    if k > 0 {
      UpAdds(table, c, i, k - 1);
    }
  }

  lemma {:induction false} OutsideStaysOutside(table: seq<Row>, c: int, i: nat, k: nat)
    requires Up(table, c, i).None? && i <= k
    ensures Up(table, c, k).None?
  {
    if i < k {
      OutsideStaysOutside(table, c, i, k - 1);
    }
  }

  lemma DepthIsUnique(table: seq<Row>, donor: int, c: int, d: nat, e: nat)
    requires DepthIs(table, donor, c, d) && DepthIs(table, donor, c, e)
    ensures d == e
  {
  }

  /** A node is one hop deeper than its parent; depth 1 is for the children of the donor. */
  lemma DepthOfParent(table: seq<Row>, donor: int, c: int, p: int, d: nat)
    requires Parent(table, c) == Some(p)
    ensures DepthIs(table, donor, c, d)
            <==> if p == donor then d == 1 else d > 1 && DepthIs(table, donor, p, d - 1)
  {
    assert Up(table, c, 1) == Some(p) by {
      assert Up(table, c, 0) == Some(c);
    }
    if d > 1 {
      UpAdds(table, c, 1, d - 1);
      forall j | 0 < j < d ensures j > 1 ==> Up(table, c, j) == Up(table, p, j - 1) {
        UpAdds(table, c, 1, j - 1);
      }
      if DepthIs(table, donor, p, d - 1) && p != donor {
        forall j | 0 < j < d ensures Up(table, c, j) != Some(donor) {
          if j > 1 {
            assert Up(table, p, j - 1) != Some(donor);
          }
        }
      }
      if DepthIs(table, donor, c, d) {
        forall j | 0 < j < d - 1 ensures Up(table, p, j) != Some(donor) {
          UpAdds(table, c, 1, j);
          assert Up(table, c, j + 1) != Some(donor);
        }
      }
    }
  }

  ghost function Cells(table: seq<Row>): set<int> {
    set i | 0 <= i < |table| :: table[i].cellId
  }

  lemma CellsGrow(table: seq<Row>, i: nat)
    requires i < |table|
    ensures Cells(table[..i + 1]) == Cells(table[..i]) + {table[i].cellId}
  {
    assert table[..i + 1] == table[..i] + [table[i]];
  }

  lemma {:induction false} CountCells(table: seq<Row>)
    ensures |Cells(table)| <= |table|
  {
    if table != [] {
      CountCells(table[..|table| - 1]);
      CellsGrow(table, |table| - 1);
      assert table[..|table|] == table;
    } else {
      assert Cells(table) == {};
    }
  }

  /** The first n cells of a way up that stays in the table. */
  lemma {:induction false} Path(table: seq<Row>, c: int, n: nat) returns (path: seq<int>)
    requires forall i: nat :: 0 < i <= n ==> Up(table, c, i).Some?
    ensures |path| == n && forall i :: 0 <= i < n ==> Up(table, c, i) == Some(path[i]) && path[i] in Cells(table)
  {
    if n == 0 {
      path := [];
    } else {
      path := Path(table, c, n - 1);
      var b := Up(table, c, n - 1).value;
      assert Up(table, c, n).Some?;
      var i :| 0 <= i < |table| && table[i].cellId == b;
      assert b in Cells(table);
      path := path + [b];
    }
  }

  /** A way up that stays in the table for more hops than the table has rows passes a cell twice. */
  lemma WayRepeats(table: seq<Row>, c: int, n: nat) returns (i: nat, j: nat)
    requires n > |table| && forall i: nat :: 0 < i <= n ==> Up(table, c, i).Some?
    ensures i < j < n && Up(table, c, i).Some? && Up(table, c, i) == Up(table, c, j)
  {
    var path := Path(table, c, n);
    CountCells(table);
    i, j := Repeats(path, Cells(table));
  }

  /** From every cell of the table rows lead to the donor. */
  ghost predicate TreeByRows(table: seq<Row>, donor: int) {
    forall i :: 0 <= i < |table| ==> RowsLead(table, donor, table[i].cellId)
  }

  ghost predicate RowsLead(table: seq<Row>, donor: int, c: int) {
    exists d: nat :: RowsToDonor(table, donor, c, d)
  }

  /** The depth is the number of rows that lead to the donor. */
  lemma {:induction false} DepthByRows(table: seq<Row>, donor: int, c: int, d: nat)
    ensures DepthIs(table, donor, c, d) <==> RowsToDonor(table, donor, c, d)
    decreases d
  {
    if d == 0 {
      assert !RowsToDonor(table, donor, c, d);
    } else if Parent(table, c).None? {
      NoParentNoRows(table, donor, c, d);
    } else {
      var p := Parent(table, c).value;
      ParentExact(table, c, p);
      var i: nat :| FirstRow(table, i, c) && table[i].parentCellId == p;
      DepthOfParent(table, donor, c, p, d);
      if p != donor {
        DepthByRows(table, donor, p, d - 1);
      }
      RowsStep(table, donor, c, i, p, d);
    }
  }

  lemma NoParentNoRows(table: seq<Row>, donor: int, c: int, d: nat)
    requires d > 0 && Parent(table, c).None?
    ensures !DepthIs(table, donor, c, d) && !RowsToDonor(table, donor, c, d)
  {
    assert Up(table, c, 0) == Some(c);
    assert Up(table, c, 1).None?;
    OutsideStaysOutside(table, c, 1, d);
    if rows :| |rows| == d && LeadsToDonor(table, donor, c, rows) {
      ParentExact(table, c, table[rows[0]].parentCellId);
    }
  }

  lemma RowsStep(table: seq<Row>, donor: int, c: int, i: nat, p: int, d: nat)
    requires FirstRow(table, i, c) && table[i].parentCellId == p && d > 0
    ensures RowsToDonor(table, donor, c, d) <==> if p == donor then d == 1 else d > 1 && RowsToDonor(table, donor, p, d - 1)
  {
    if rows :| |rows| == d && LeadsToDonor(table, donor, c, rows) {
      assert rows[0] == i;
      if d > 1 {
        assert |rows[1..]| == d - 1;
      }
    }
    if p == donor && d == 1 {
      assert LeadsToDonor(table, donor, c, [i]);
    }
    if p != donor && d > 1 && RowsToDonor(table, donor, p, d - 1) {
      var rest :| |rest| == d - 1 && LeadsToDonor(table, donor, p, rest);
      assert ([i] + rest)[1..] == rest;
      assert LeadsToDonor(table, donor, c, [i] + rest);
    }
  }

  /** The way up to the donor passes no cell twice, so the depth is at most the number of rows: whether
      the donor is reached at all shows within that many hops. */
  lemma DepthIsBounded(table: seq<Row>, donor: int, c: int, d: nat)
    requires DepthIs(table, donor, c, d)
    ensures d <= |table|
  {
    if d > |table| {
      forall i: nat | 0 < i <= d ensures Up(table, c, i).Some? {
        if Up(table, c, i).None? {
          OutsideStaysOutside(table, c, i, d);
        }
      }
      var i, j := WayRepeats(table, c, d);
      UpAdds(table, c, i, d - j);
      UpAdds(table, c, j, d - j);
    }
  }

  // ---------------------------------------------------------------------------------------------
  // Why the walks end
  // ---------------------------------------------------------------------------------------------

  /** A walk that has not ended after one hop more than the table has rows has gone through a loop. */
  lemma LongWalkLoops(table: seq<Row>, donor: int, c: int)
    requires forall k: nat :: 0 < k <= |table| + 1 ==> !EndsAt(table, donor, c, k)
    ensures !NoLoops(table, donor)
  {
    var n := |table| + 1;
    forall i: nat | 0 < i <= n ensures Up(table, c, i).Some? && Up(table, c, i) != Some(donor) {
      assert !EndsAt(table, donor, c, i);
    }
    var i, j := WayRepeats(table, c, n);
    var b := Up(table, c, i).value;
    UpAdds(table, c, i, j - i);
    forall m: nat | 0 < m <= j - i ensures Up(table, b, m) != Some(donor) {
      UpAdds(table, c, i, m);
    }
    assert Loop(table, donor, b, j - i);
  }

  /** Without loops every walk ends, after one hop more than the table has rows at the latest. */
  lemma WalkEnds(table: seq<Row>, donor: int, c: int) returns (k: nat)
    requires NoLoops(table, donor)
    ensures EndsAt(table, donor, c, k) && k <= |table| + 1
  {
    if forall i: nat :: 0 < i <= |table| + 1 ==> !EndsAt(table, donor, c, i) {
      LongWalkLoops(table, donor, c);
    }
    k :| 0 < k <= |table| + 1 && EndsAt(table, donor, c, k);
  }

  /** From a cell on a loop the way up never ends. */
  lemma {:induction false} LoopNeverEnds(table: seq<Row>, donor: int, c: int, k: nat, m: nat)
    requires Loop(table, donor, c, k)
    ensures !EndsAt(table, donor, c, m)
    decreases m
  {
    if m > k {
      UpAdds(table, c, k, m - k);
      LoopNeverEnds(table, donor, c, k, m - k);
    } else if m > 0 && Up(table, c, m).None? {
      OutsideStaysOutside(table, c, m, k);
    }
  }

  /** The walks from all cells end exactly if there is no loop. */
  lemma EndsExactlyWithoutLoops(table: seq<Row>, donor: int)
    ensures NoLoops(table, donor) <==> forall c :: c in Cells(table) ==> exists k: nat :: EndsAt(table, donor, c, k)
  {
    if NoLoops(table, donor) {
      forall c | c in Cells(table) ensures exists k: nat :: EndsAt(table, donor, c, k) {
        var k := WalkEnds(table, donor, c);
      }
    } else {
      var c, k: nat :| Loop(table, donor, c, k);
      forall m: nat ensures !EndsAt(table, donor, c, m) {
        LoopNeverEnds(table, donor, c, k, m);
      }
      LoopIsInTable(table, donor, c, k);
    }
  }

  lemma LoopIsInTable(table: seq<Row>, donor: int, c: int, k: nat)
    requires Loop(table, donor, c, k)
    ensures c in Cells(table)
  {
    assert Up(table, c, 0) == Some(c);
    if Up(table, c, 1).None? {
      OutsideStaysOutside(table, c, 1, k);
    }
    assert Parent(table, c).Some?;
  }

  // ---------------------------------------------------------------------------------------------
  // The program
  // ---------------------------------------------------------------------------------------------

  /** The walk of both functions from one cell of the table; None is the IndexError. */
  method WalkUp(table: seq<Row>, donor: int, c: int) returns (depth: Option<nat>)
    requires NoLoops(table, donor) && Parent(table, c).Some?
    ensures depth.Some? ==> DepthIs(table, donor, c, depth.value) && RowsToDonor(table, donor, c, depth.value)
    ensures depth.None? ==> !Reaches(table, donor, c)
  {
    ghost var end := WalkEnds(table, donor, c);
    var parent := Parent(table, c).value;
    var d := 1;
    assert Up(table, c, 0) == Some(c);
    while parent != donor
      invariant Up(table, c, d) == Some(parent)
      invariant 0 < d <= end
      invariant forall j :: 0 < j < d ==> Up(table, c, j) != Some(donor)
      decreases end - d
    {
      var next := Parent(table, parent);
      assert Up(table, c, d + 1) == next;
      if next.None? {
        forall e: nat ensures !DepthIs(table, donor, c, e) {
          if e > d {
            OutsideStaysOutside(table, c, d + 1, e);
          }
        }
        return None;
      }
      parent := next.value;
      d := d + 1;
    }
    DepthByRows(table, donor, c, d);
    depth := Some(d);
  }

  /** The keys are the cells, and the values their depths. */
  ghost predicate CellMapping(table: seq<Row>, donor: int, cells: set<int>, m: map<int, nat>) {
    && m.Keys == cells
    && forall c :: c in m ==> DepthIs(table, donor, c, m[c])
  }

  lemma CellMappingGrows(table: seq<Row>, donor: int, cells: set<int>, m: map<int, nat>, c: int, d: nat)
    requires CellMapping(table, donor, cells, m) && DepthIs(table, donor, c, d)
    ensures CellMapping(table, donor, cells + {c}, m[c := d])
  {
  }

  lemma MappedIsRooted(table: seq<Row>, donor: int, m: map<int, nat>)
    requires CellMapping(table, donor, Cells(table), m)
    ensures RootedAt(table, donor)
  {
    forall i | 0 <= i < |table| ensures Reaches(table, donor, table[i].cellId) {
      var c := table[i].cellId;
      assert c in Cells(table);
      assert DepthIs(table, donor, c, m[c]);
    }
  }

  lemma ReachedByRows(table: seq<Row>, donor: int, c: int)
    ensures Reaches(table, donor, c) <==> RowsLead(table, donor, c)
  {
    if d: nat :| DepthIs(table, donor, c, d) {
      DepthByRows(table, donor, c, d);
    }
    if d: nat :| RowsToDonor(table, donor, c, d) {
      DepthByRows(table, donor, c, d);
    }
  }

  lemma RootedByRows(table: seq<Row>, donor: int)
    ensures RootedAt(table, donor) <==> TreeByRows(table, donor)
  {
    forall i | 0 <= i < |table|
      ensures Reaches(table, donor, table[i].cellId) <==> RowsLead(table, donor, table[i].cellId)
    {
      ReachedByRows(table, donor, table[i].cellId);
    }
    hide Reaches, RowsLead;
  }

  lemma CellsByRows(table: seq<Row>, donor: int, m: map<int, nat>)
    requires CellMapping(table, donor, Cells(table), m)
    ensures forall i :: 0 <= i < |table| ==>
              table[i].cellId in m && RowsToDonor(table, donor, table[i].cellId, m[table[i].cellId])
  {
    forall i | 0 <= i < |table|
      ensures table[i].cellId in m && RowsToDonor(table, donor, table[i].cellId, m[table[i].cellId])
    {
      assert table[i].cellId in Cells(table);
      DepthByRows(table, donor, table[i].cellId, m[table[i].cellId]);
    }
  }

  /** `get_cell_id_to_iab_depth_mapping`: every cell with its depth, and the donor with 0. */
  method CellDepths(table: seq<Row>, donor: int) returns (m: Option<map<int, nat>>)
    requires NoLoops(table, donor)
    ensures m.Some? <==> RootedAt(table, donor)
    ensures m.Some? ==> m.value.Keys == Cells(table) + {donor} && m.value[donor] == 0
    ensures m.Some? ==> forall c :: c in Cells(table) && c != donor ==> DepthIs(table, donor, c, m.value[c])
    ensures m.Some? <==> TreeByRows(table, donor)
    ensures m.Some? ==> forall i :: 0 <= i < |table| && table[i].cellId != donor ==>
              RowsToDonor(table, donor, table[i].cellId, m.value[table[i].cellId])
  {
    hide TreeByRows, RowsToDonor;
    RootedByRows(table, donor);
    var depths: map<int, nat> := map[];
    for i := 0 to |table|
      invariant CellMapping(table, donor, Cells(table[..i]), depths)
    {
      var c := table[i].cellId;
      var d := WalkUp(table, donor, c);
      if d.None? {
        return None;
      }
      CellMappingGrows(table, donor, Cells(table[..i]), depths, c, d.value);
      CellsGrow(table, i);
      depths := depths[c := d.value];
    }
    assert table[..|table|] == table;
    MappedIsRooted(table, donor, depths);
    CellsByRows(table, donor, depths);
    m := Some(depths[donor := 0]);
  }

  /** The keys are the ports of the cells, and the values their depths. */
  ghost predicate PortMapping(table: seq<Row>, donor: int, firstUdpPort: int, cells: set<int>, m: map<int, nat>) {
    && (forall p :: p in m <==> p - firstUdpPort + 1 in cells)
    && (forall p :: p in m ==> DepthIs(table, donor, p - firstUdpPort + 1, m[p]))
  }

  lemma PortMappingGrows(table: seq<Row>, donor: int, firstUdpPort: int, cells: set<int>, m: map<int, nat>, c: int, d: nat)
    requires PortMapping(table, donor, firstUdpPort, cells, m) && DepthIs(table, donor, c, d)
    ensures PortMapping(table, donor, firstUdpPort, cells + {c}, m[c + firstUdpPort - 1 := d])
  {
  }

  lemma PortMappedIsRooted(table: seq<Row>, donor: int, firstUdpPort: int, m: map<int, nat>)
    requires PortMapping(table, donor, firstUdpPort, Cells(table), m)
    ensures RootedAt(table, donor)
  {
    forall i | 0 <= i < |table| ensures Reaches(table, donor, table[i].cellId) {
      var p := table[i].cellId + firstUdpPort - 1;
      assert p - firstUdpPort + 1 in Cells(table);
      assert DepthIs(table, donor, p - firstUdpPort + 1, m[p]);
    }
  }

  lemma PortsByRows(table: seq<Row>, donor: int, firstUdpPort: int, m: map<int, nat>)
    requires PortMapping(table, donor, firstUdpPort, Cells(table), m)
    ensures forall i :: 0 <= i < |table| ==>
              && table[i].cellId + firstUdpPort - 1 in m
              && RowsToDonor(table, donor, table[i].cellId, m[table[i].cellId + firstUdpPort - 1])
    ensures forall p :: p in m ==> exists i :: 0 <= i < |table| && p == table[i].cellId + firstUdpPort - 1
  {
    forall i | 0 <= i < |table|
      ensures table[i].cellId + firstUdpPort - 1 in m
      ensures RowsToDonor(table, donor, table[i].cellId, m[table[i].cellId + firstUdpPort - 1])
    {
      var p := table[i].cellId + firstUdpPort - 1;
      assert p - firstUdpPort + 1 in Cells(table);
      assert DepthIs(table, donor, p - firstUdpPort + 1, m[p]);
      DepthByRows(table, donor, table[i].cellId, m[p]);
    }
  }

  /** `get_udp_port_to_iab_depth_mapping`: the same depths by port, and no entry for the donor. */
  method PortDepths(table: seq<Row>, donor: int, firstUdpPort: int) returns (m: Option<map<int, nat>>)
    requires NoLoops(table, donor)
    ensures m.Some? <==> RootedAt(table, donor)
    ensures m.Some? ==> PortMapping(table, donor, firstUdpPort, Cells(table), m.value)
    ensures m.Some? <==> TreeByRows(table, donor)
    ensures m.Some? ==> forall i :: 0 <= i < |table| ==>
              && table[i].cellId + firstUdpPort - 1 in m.value
              && RowsToDonor(table, donor, table[i].cellId, m.value[table[i].cellId + firstUdpPort - 1])
    ensures m.Some? ==> forall p :: p in m.value ==> exists i :: 0 <= i < |table| && p == table[i].cellId + firstUdpPort - 1
  {
    hide TreeByRows, RowsToDonor;
    RootedByRows(table, donor);
    var depths: map<int, nat> := map[];
    for i := 0 to |table|
      invariant PortMapping(table, donor, firstUdpPort, Cells(table[..i]), depths)
    {
      var c := table[i].cellId;
      var d := WalkUp(table, donor, c);
      if d.None? {
        return None;
      }
      PortMappingGrows(table, donor, firstUdpPort, Cells(table[..i]), depths, c, d.value);
      CellsGrow(table, i);
      depths := depths[c + firstUdpPort - 1 := d.value];
    }
    assert table[..|table|] == table;
    PortMappedIsRooted(table, donor, firstUdpPort, depths);
    PortsByRows(table, donor, firstUdpPort, depths);
    m := Some(depths);
  }

  /** In a mapping by cell every node is one deeper than its parent, the donor being at 0. */
  lemma MappingFollowsTree(table: seq<Row>, donor: int, m: map<int, nat>, c: int, p: int)
    requires m.Keys == Cells(table) + {donor} && m[donor] == 0
    requires forall b :: b in Cells(table) && b != donor ==> DepthIs(table, donor, b, m[b])
    requires c in Cells(table) && c != donor && Parent(table, c) == Some(p)
    ensures p in m && m[c] == m[p] + 1 && m[c] <= |table|
  {
    DepthOfParent(table, donor, c, p, m[c]);
    DepthIsBounded(table, donor, c, m[c]);
    if p != donor {
      var q := m[c] - 1;
      if Parent(table, p).None? {
        assert Up(table, p, 0) == Some(p) && Up(table, p, 1) == None;
        OutsideStaysOutside(table, p, 1, q);
      }
      var i :| 0 <= i < |table| && table[i].cellId == p;
      assert p in Cells(table);
      DepthIsUnique(table, donor, p, q, m[p]);
    }
  }

  /** The mapping by port is the mapping by cell without the donor, shifted. */
  lemma MappingsAgree(table: seq<Row>, donor: int, firstUdpPort: int, cells: map<int, nat>, ports: map<int, nat>, c: int)
    requires cells.Keys == Cells(table) + {donor} && PortMapping(table, donor, firstUdpPort, Cells(table), ports)
    requires forall b :: b in Cells(table) && b != donor ==> DepthIs(table, donor, b, cells[b])
    requires c != donor
    ensures c in cells <==> c + firstUdpPort - 1 in ports
    ensures c in cells ==> ports[c + firstUdpPort - 1] == cells[c]
  {
    if c in cells {
      DepthIsUnique(table, donor, c, cells[c], ports[c + firstUdpPort - 1]);
    }
  }
}
