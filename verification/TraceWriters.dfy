/** The coupled trace writers of examples/tcp/tcp-variants-comparison.cc: every change of the congestion
    window or of the slow start threshold of a node writes a line to both of its files. */
module TraceWriters {
  import opened Collections

  // ---------------------------------------------------------------------------------------------
  // Files as step functions
  // ---------------------------------------------------------------------------------------------

  datatype Line = Line(time: real, value: nat)

  ghost predicate TimeOrdered(file: seq<Line>) {
    forall i, j :: 0 <= i < j < |file| ==> file[i].time <= file[j].time
  }

  /** Replaying a file: the value at time t is the one of the last line up to t. */
  ghost function Replay(file: seq<Line>, t: real): Option<nat> {
    if file == [] then None
    else
      var last := file[|file| - 1];
      if last.time <= t then Some(last.value) else Replay(file[..|file| - 1], t)
  }

  ghost predicate SameReplay(a: seq<Line>, b: seq<Line>) {
    forall t: real :: Replay(a, t) == Replay(b, t)
  }

  lemma ReplayAppend(file: seq<Line>, line: Line, t: real)
    ensures Replay(file + [line], t) == if line.time <= t then Some(line.value) else Replay(file, t)
  {
    assert (file + [line])[..|file|] == file;
  }

  lemma BothAppend(a: seq<Line>, b: seq<Line>, line: Line)
    requires SameReplay(a, b)
    ensures SameReplay(a + [line], b + [line])
  {
    forall t: real ensures Replay(a + [line], t) == Replay(b + [line], t) {
      ReplayAppend(a, line, t);
      ReplayAppend(b, line, t);
    }
  }

  /** Replaying yields the last line that is not later. */
  lemma {:induction false} ReplayIsLastLine(file: seq<Line>, t: real, i: nat)
    requires i < |file| && file[i].time <= t && forall j :: i < j < |file| ==> file[j].time > t
    ensures Replay(file, t) == Some(file[i].value)
  {
    if i < |file| - 1 {
      assert file[|file| - 1].time > t;
      ReplayIsLastLine(file[..|file| - 1], t, i);
    }
  }

  lemma {:induction false} ReplayOfLaterLines(file: seq<Line>, t: real)
    requires forall j :: 0 <= j < |file| ==> file[j].time > t
    ensures Replay(file, t) == None
  {
    if file != [] {
      assert file[|file| - 1].time > t;
      ReplayOfLaterLines(file[..|file| - 1], t);
    }
  }

  // ---------------------------------------------------------------------------------------------
  // The true history
  // ---------------------------------------------------------------------------------------------

  datatype Kind = Cwnd | SsThresh

  /** A change reported by the simulator. */
  datatype Event = Event(kind: Kind, time: real, before: nat, after: nat)

  /** The history of one quantity by its own events alone: what it was before the first of them, from
      time 0 on, and every change. */
  ghost function History(events: seq<Event>, kind: Kind): seq<Line> {
    if events == [] then []
    else
      var h, e := History(events[..|events| - 1], kind), events[|events| - 1];
      if e.kind != kind then h
      else (if h == [] then [Line(0.0, e.before)] else h) + [Line(e.time, e.after)]
  }

  /** The file of a quantity, its flag and its value after some events of its node, at time now: the file
      replays to the history, and once it has begun it reaches up to the node's last event of either kind. */
  ghost predicate FileInv(events: seq<Event>, kind: Kind, first: bool, value: nat, file: seq<Line>, now: real) {
    var h := History(events, kind);
    && now >= 0.0
    && (first <==> h == [])
    && (file == [] <==> h == [])
    && (h != [] ==> value == h[|h| - 1].value == file[|file| - 1].value)
    && (h != [] ==> events != [] && file[|file| - 1].time == events[|events| - 1].time)
    && TimeOrdered(file)
    && (forall i :: 0 <= i < |file| ==> file[i].time <= now)
    && (forall i :: 0 <= i < |h| ==> h[i].time <= now)
    && SameReplay(file, h)
  }

  /** The tracer of the quantity itself. */
  ghost function WriteOwn(first: bool, file: seq<Line>, now: real, before: nat, after: nat): seq<Line> {
    (if first then file + [Line(0.0, before)] else file) + [Line(now, after)]
  }

  lemma OwnEvent(events: seq<Event>, kind: Kind, first: bool, value: nat, file: seq<Line>, then_: real, now: real,
                 before: nat, after: nat)
    requires FileInv(events, kind, first, value, file, then_) && then_ <= now
    ensures FileInv(events + [Event(kind, now, before, after)], kind, false, after,
                    WriteOwn(first, file, now, before, after), now)
  {
    var e := Event(kind, now, before, after);
    assert (events + [e])[..|events|] == events;
    var h := History(events, kind);
    if first {
      assert file == [] && h == [];
      assert WriteOwn(first, file, now, before, after) == [Line(0.0, before)] + [Line(now, after)];
    } else {
      BothAppend(file, h, Line(now, after));
    }
  }

  /** The tracer of the other quantity adds the value once more, which changes nothing in the replay. */
  lemma OtherEvent(events: seq<Event>, kind: Kind, first: bool, value: nat, file: seq<Line>, then_: real, now: real,
                   e: Event)
    requires FileInv(events, kind, first, value, file, then_) && then_ <= now
    requires e.kind != kind && e.time == now
    ensures FileInv(events + [e], kind, first, value, if first then file else file + [Line(now, value)], now)
  {
    assert (events + [e])[..|events|] == events;
    var h := History(events, kind);
    if !first {
      forall t: real ensures Replay(file + [Line(now, value)], t) == Replay(h, t) {
        ReplayAppend(file, Line(now, value), t);
      }
    }
  }

  /** Event i is the first of its quantity. */
  ghost predicate FirstOwn(events: seq<Event>, kind: Kind, i: nat) {
    i < |events| && events[i].kind == kind && forall j :: 0 <= j < i ==> events[j].kind != kind
  }

  /** Event i is the last of its quantity up to time t. */
  ghost predicate LastOwn(events: seq<Event>, kind: Kind, t: real, i: nat) {
    && i < |events| && events[i].kind == kind && events[i].time <= t
    && forall j :: i < j < |events| && events[j].kind == kind ==> events[j].time > t
  }

  /** No event of the quantity up to time t. */
  ghost predicate NoneUpTo(events: seq<Event>, kind: Kind, t: real) {
    forall j :: 0 <= j < |events| && events[j].kind == kind ==> events[j].time > t
  }

  lemma {:induction false} HistoryIsEmpty(events: seq<Event>, kind: Kind)
    ensures History(events, kind) == [] <==> forall j :: 0 <= j < |events| ==> events[j].kind != kind
  {
    if events != [] {
      var n := |events| - 1;
      HistoryIsEmpty(events[..n], kind);
      assert forall j :: 0 <= j < n ==> events[..n][j] == events[j];
    }
  }

  /** One event more. */
  lemma HistoryAppend(events: seq<Event>, kind: Kind, t: real)
    requires events != []
    ensures var n := |events| - 1;
            var h, e := History(events[..n], kind), events[n];
            && (e.kind != kind ==> History(events, kind) == h)
            && (e.kind == kind && e.time <= t ==> Replay(History(events, kind), t) == Some(e.after))
            && (e.kind == kind && e.time > t && h != [] ==> Replay(History(events, kind), t) == Replay(h, t))
            && (e.kind == kind && e.time > t && h == [] ==>
                  Replay(History(events, kind), t) == if 0.0 <= t then Some(e.before) else None)
  {
    var n := |events| - 1;
    var h, e := History(events[..n], kind), events[n];
    if e.kind == kind {
      var start := if h == [] then [Line(0.0, e.before)] else h;
      ReplayAppend(start, Line(e.time, e.after), t);
      ReplayAppend([], Line(0.0, e.before), t);
      assert [] + [Line(0.0, e.before)] == [Line(0.0, e.before)];
    }
  }

  /** The history at time t is what the last event up to t has left. */
  lemma {:induction false} HistoryAfter(events: seq<Event>, kind: Kind, t: real, i: nat)
    requires LastOwn(events, kind, t, i)
    ensures Replay(History(events, kind), t) == Some(events[i].after)
  {
    var n := |events| - 1;
    HistoryAppend(events, kind, t);
    if i < n {
      var front := events[..n];
      assert forall j :: 0 <= j < n ==> front[j] == events[j];
      hide History, Replay;
      HistoryIsEmpty(front, kind);
      HistoryAfter(front, kind, t, i);
    }
  }

  /** Before the first event it is what that event found, from time 0 on. */
  lemma {:induction false} HistoryBefore(events: seq<Event>, kind: Kind, t: real, f: nat)
    requires FirstOwn(events, kind, f) && NoneUpTo(events, kind, t)
    ensures Replay(History(events, kind), t) == if 0.0 <= t then Some(events[f].before) else None
  {
    var n := |events| - 1;
    HistoryAppend(events, kind, t);
    var front := events[..n];
    assert forall j :: 0 <= j < n ==> front[j] == events[j];
    hide History, Replay;
    HistoryIsEmpty(front, kind);
    if f < n {
      assert front[f].kind == kind;
      HistoryBefore(front, kind, t, f);
    }
  }

  // ---------------------------------------------------------------------------------------------
  // The context string
  // ---------------------------------------------------------------------------------------------

  const TWO_TO_THE_32: nat := 0x1_0000_0000
  const TWO_TO_THE_64: nat := 0x1_0000_0000_0000_0000

  /** `s.find_first_of('/', from)`, with the length of s for npos. */
  function FindSlash(s: string, from: nat): (k: nat)
    requires from <= |s|
    ensures from <= k <= |s| && (k < |s| ==> s[k] == '/') && forall i :: from <= i < k ==> s[i] != '/'
    decreases |s| - from
  {
    if from < |s| && s[from] != '/' then FindSlash(s, from + 1) else from
  }

  predicate IsDigit(c: char) {
    '0' <= c <= '9'
  }

  function DigitsIn(s: string): (k: nat)
    ensures k <= |s| && (forall i :: 0 <= i < k ==> IsDigit(s[i])) && (k < |s| ==> !IsDigit(s[k]))
  {
    if s != [] && IsDigit(s[0]) then 1 + DigitsIn(s[1..]) else 0
  }

  function Number(digits: string): nat
    requires forall i :: 0 <= i < |digits| ==> IsDigit(digits[i])
  {
    if digits == [] then 0
    else
      assert IsDigit(digits[|digits| - 1]);
      10 * Number(digits[..|digits| - 1]) + (digits[|digits| - 1] as int - '0' as int)
  }

  /** `std::stoul` on a text that starts with a digit or with nothing it understands. */
  function Stoul(s: string): Option<nat> {
    var k := DigitsIn(s);
    if k == 0 || Number(s[..k]) >= TWO_TO_THE_64 then None else Some(Number(s[..k]))
  }

  /** The text between the second slash and the third, as a uint32_t; a missing slash makes npos + 1,
      that is 0, the start. */
  function GetNodeIdFromContext(context: string): Option<nat>
    requires context != []
  {
    var n1 := FindSlash(context, 1);
    var start := if n1 == |context| then 0 else n1 + 1;
    match Stoul(context[start..FindSlash(context, start)])
    case None => None
    case Some(n) => Some(n % TWO_TO_THE_32)
  }

  function Decimal(n: nat): (s: string)
    ensures s != [] && forall i :: 0 <= i < |s| ==> IsDigit(s[i])
  {
    (if n < 10 then [] else Decimal(n / 10)) + [('0' as int + n % 10) as char]
  }

  ghost function Digit(d: nat): char
    requires d < 10
  {
    "0123456789"[d]
  }

  lemma DigitIs(d: nat)
    requires d < 10
    ensures Digit(d) == ('0' as int + d) as char
  {
  }

  /** Decimal notation, digit by digit. */
  lemma DecimalDigits(n: nat, d: nat)
    requires d < 10
    ensures Decimal(d) == [Digit(d)]
    ensures n > 0 ==> Decimal(10 * n + d) == Decimal(n) + [Digit(d)]
  {
    DigitIs(d);
    hide Digit;
    if n > 0 {
      var m := 10 * n + d;
      assert m / 10 == n && m % 10 == d && m >= 10;
    }
  }

  lemma {:induction false} NumberOfDecimal(n: nat)
    ensures Number(Decimal(n)) == n
  {
    var s := Decimal(n);
    assert s[..|s| - 1] == if n < 10 then [] else Decimal(n / 10);
    if n >= 10 {
      NumberOfDecimal(n / 10);
    }
  }

  lemma {:induction false} AllDigits(s: string)
    requires forall i :: 0 <= i < |s| ==> IsDigit(s[i])
    ensures DigitsIn(s) == |s|
  {
    if s != [] {
      AllDigits(s[1..]);
    }
  }

  lemma FirstSlash(s: string, from: nat, k: nat)
    requires from <= k <= |s| && (forall i :: from <= i < k ==> s[i] != '/') && (k < |s| ==> s[k] == '/')
    ensures FindSlash(s, from) == k
  {
  }

  /** The context that tracing connects for a node gives that node back, whatever follows the number. */
  lemma ContextGivesNode(n: nat, rest: string)
    requires n < TWO_TO_THE_32 && rest != [] && rest[0] == '/'
    ensures GetNodeIdFromContext("/NodeList/" + Decimal(n) + rest) == Some(n)
  {
    ContextSlashes(Decimal(n), rest);
    NodeBetweenSlashes("/NodeList/" + Decimal(n) + rest, 9, n);
  }

  lemma NodeBetweenSlashes(s: string, a: nat, n: nat)
    requires n < TWO_TO_THE_32 && s != [] && a < |s| && FindSlash(s, 1) == a
    requires s[a + 1..FindSlash(s, a + 1)] == Decimal(n)
    ensures GetNodeIdFromContext(s) == Some(n)
  {
    hide FindSlash;
    StoulOfDecimal(n);
  }

  lemma StoulOfDecimal(n: nat)
    requires n < TWO_TO_THE_32
    ensures Stoul(Decimal(n)) == Some(n)
  {
    AllDigits(Decimal(n));
    NumberOfDecimal(n);
    hide Number, Decimal, DigitsIn;
    assert Decimal(n)[..|Decimal(n)|] == Decimal(n);
  }

  lemma ContextSlashes(digits: string, rest: string)
    requires (forall i :: 0 <= i < |digits| ==> IsDigit(digits[i])) && rest != [] && rest[0] == '/'
    ensures var s := "/NodeList/" + digits + rest;
            FindSlash(s, 1) == 9 && FindSlash(s, 10) == 10 + |digits| && s[10..10 + |digits|] == digits
  {
    var prefix := "/NodeList/";
    var s := prefix + digits + rest;
    assert prefix[9] == '/' && forall i :: 1 <= i < 9 ==> prefix[i] != '/';
    assert forall i :: 0 <= i < 10 ==> s[i] == prefix[i];
    FirstSlash(s, 1, 9);
    assert forall i :: 10 <= i < 10 + |digits| ==> s[i] == digits[i - 10];
    assert s[10 + |digits|] == rest[0];
    FirstSlash(s, 10, 10 + |digits|);
  }

  // ---------------------------------------------------------------------------------------------
  // The per-node maps
  // ---------------------------------------------------------------------------------------------

  /** `m[node]` of a std::map, which yields the default for an absent key. */
  function Get<T>(m: map<nat, T>, node: nat, default: T): T {
    if node in m then m[node] else default
  }

  datatype Maps = Maps(now: real,
                       firstCwnd: map<nat, bool>, firstSshThr: map<nat, bool>,
                       cWndValue: map<nat, nat>, ssThreshValue: map<nat, nat>,
                       cWndStream: map<nat, seq<Line>>, ssThreshStream: map<nat, seq<Line>>,
                       events: map<nat, seq<Event>>) {

    ghost predicate HasStreams(node: nat) {
      node in events && node in cWndStream && node in ssThreshStream
    }

    ghost predicate CwndInv(node: nat)
      requires HasStreams(node)
    {
      FileInv(events[node], Cwnd, Get(firstCwnd, node, false), Get(cWndValue, node, 0), cWndStream[node], now)
    }

    ghost predicate SsThreshInv(node: nat)
      requires HasStreams(node)
    {
      FileInv(events[node], SsThresh, Get(firstSshThr, node, false), Get(ssThreshValue, node, 0),
              ssThreshStream[node], now)
    }

    /** Both files of a node replay to the history of their quantity. */
    ghost predicate NodeInv(node: nat) {
      HasStreams(node) && CwndInv(node) && SsThreshInv(node)
    }

    ghost predicate Valid() {
      forall node :: node in events ==> NodeInv(node)
    }
  }

  /** m' differs from m only in what concerns one node. */
  ghost predicate OnlyNode(m: Maps, m': Maps, node: nat) {
    && m'.now == m.now && m'.events.Keys == m.events.Keys
    && forall n :: n in m.events && n != node ==>
         && m'.events[n] == m.events[n]
         && Get(m'.firstCwnd, n, false) == Get(m.firstCwnd, n, false)
         && Get(m'.firstSshThr, n, false) == Get(m.firstSshThr, n, false)
         && Get(m'.cWndValue, n, 0) == Get(m.cWndValue, n, 0)
         && Get(m'.ssThreshValue, n, 0) == Get(m.ssThreshValue, n, 0)
         && (n in m.cWndStream && n in m.ssThreshStream ==>
               && n in m'.cWndStream && m'.cWndStream[n] == m.cWndStream[n]
               && n in m'.ssThreshStream && m'.ssThreshStream[n] == m.ssThreshStream[n])
  }

  lemma OneNodeIsEnough(m: Maps, m': Maps, node: nat)
    requires m.Valid() && OnlyNode(m, m', node) && (node in m.events ==> m'.NodeInv(node))
    ensures m'.Valid()
  {
    forall n | n in m'.events ensures m'.NodeInv(n) {
      if n != node {
        assert m.NodeInv(n);
      }
    }
  }

  ghost predicate Knows(m: Maps, context: string) {
    context != [] && GetNodeIdFromContext(context).Some? && m.HasStreams(GetNodeIdFromContext(context).value)
  }

  ghost function WriteOther(first: bool, file: seq<Line>, now: real, value: nat): seq<Line> {
    if first then file else file + [Line(now, value)]
  }

  /** The maps after a change of the congestion window, and after one of the slow start threshold. */
  ghost function AfterCwnd(m: Maps, node: nat, before: nat, after: nat): Maps
    requires m.HasStreams(node)
  {
    var first := Get(m.firstCwnd, node, false);
    m.(firstCwnd := if first then m.firstCwnd[node := false] else m.firstCwnd,
       cWndValue := m.cWndValue[node := after],
       cWndStream := m.cWndStream[node := WriteOwn(first, m.cWndStream[node], m.now, before, after)],
       ssThreshStream := m.ssThreshStream[node := WriteOther(Get(m.firstSshThr, node, false), m.ssThreshStream[node],
                                                             m.now, Get(m.ssThreshValue, node, 0))],
       events := m.events[node := m.events[node] + [Event(Cwnd, m.now, before, after)]])
  }

  ghost function AfterSsThresh(m: Maps, node: nat, before: nat, after: nat): Maps
    requires m.HasStreams(node)
  {
    var first := Get(m.firstSshThr, node, false);
    m.(firstSshThr := if first then m.firstSshThr[node := false] else m.firstSshThr,
       ssThreshValue := m.ssThreshValue[node := after],
       ssThreshStream := m.ssThreshStream[node := WriteOwn(first, m.ssThreshStream[node], m.now, before, after)],
       cWndStream := m.cWndStream[node := WriteOther(Get(m.firstCwnd, node, false), m.cWndStream[node],
                                                     m.now, Get(m.cWndValue, node, 0))],
       events := m.events[node := m.events[node] + [Event(SsThresh, m.now, before, after)]])
  }

  lemma CwndKeepsNode(m: Maps, node: nat, before: nat, after: nat)
    requires m.HasStreams(node) && m.CwndInv(node) && m.SsThreshInv(node)
    ensures var m' := AfterCwnd(m, node, before, after); m'.CwndInv(node) && m'.SsThreshInv(node)
  {
    OwnEvent(m.events[node], Cwnd, Get(m.firstCwnd, node, false), Get(m.cWndValue, node, 0),
             m.cWndStream[node], m.now, m.now, before, after);
    OtherEvent(m.events[node], SsThresh, Get(m.firstSshThr, node, false), Get(m.ssThreshValue, node, 0),
               m.ssThreshStream[node], m.now, m.now, Event(Cwnd, m.now, before, after));
  }

  lemma SsThreshKeepsNode(m: Maps, node: nat, before: nat, after: nat)
    requires m.HasStreams(node) && m.CwndInv(node) && m.SsThreshInv(node)
    ensures var m' := AfterSsThresh(m, node, before, after); m'.CwndInv(node) && m'.SsThreshInv(node)
  {
    OwnEvent(m.events[node], SsThresh, Get(m.firstSshThr, node, false), Get(m.ssThreshValue, node, 0),
             m.ssThreshStream[node], m.now, m.now, before, after);
    OtherEvent(m.events[node], Cwnd, Get(m.firstCwnd, node, false), Get(m.cWndValue, node, 0),
               m.cWndStream[node], m.now, m.now, Event(SsThresh, m.now, before, after));
  }

  /** After a change of the congestion window of a node every file still replays to its history, that
      node's histories being one event longer, and no other node is touched. */
  lemma CwndKeeps(m: Maps, node: nat, before: nat, after: nat)
    requires m.Valid() && m.HasStreams(node)
    ensures AfterCwnd(m, node, before, after).Valid()
    ensures OnlyNode(m, AfterCwnd(m, node, before, after), node)
  {
    assert m.NodeInv(node);
    CwndKeepsNode(m, node, before, after);
    CwndOnlyNode(m, node, before, after);
    OneNodeIsEnough(m, AfterCwnd(m, node, before, after), node);
  }

  lemma CwndOnlyNode(m: Maps, node: nat, before: nat, after: nat)
    requires m.HasStreams(node)
    ensures OnlyNode(m, AfterCwnd(m, node, before, after), node)
    ensures AfterCwnd(m, node, before, after).HasStreams(node)
  {
  }

  /** The same for a change of the slow start threshold. */
  lemma SsThreshKeeps(m: Maps, node: nat, before: nat, after: nat)
    requires m.Valid() && m.HasStreams(node)
    ensures AfterSsThresh(m, node, before, after).Valid()
    ensures OnlyNode(m, AfterSsThresh(m, node, before, after), node)
  {
    assert m.NodeInv(node);
    SsThreshKeepsNode(m, node, before, after);
    SsThreshOnlyNode(m, node, before, after);
    OneNodeIsEnough(m, AfterSsThresh(m, node, before, after), node);
  }

  lemma SsThreshOnlyNode(m: Maps, node: nat, before: nat, after: nat)
    requires m.HasStreams(node)
    ensures OnlyNode(m, AfterSsThresh(m, node, before, after), node)
    ensures AfterSsThresh(m, node, before, after).HasStreams(node)
  {
  }

  // ---------------------------------------------------------------------------------------------
  // The program
  // ---------------------------------------------------------------------------------------------

  class Tracers {
    var now: real
    var firstCwnd: map<nat, bool>
    var firstSshThr: map<nat, bool>
    var cWndValue: map<nat, nat>
    var ssThreshValue: map<nat, nat>
    var cWndStream: map<nat, seq<Line>>
    var ssThreshStream: map<nat, seq<Line>>
    ghost var events: map<nat, seq<Event>>

    ghost function View(): Maps
      reads this
    {
      Maps(now, firstCwnd, firstSshThr, cWndValue, ssThreshValue, cWndStream, ssThreshStream, events)
    }

    constructor (nodes: set<nat>)
      ensures View().Valid() && now == 0.0 && events.Keys == nodes
      ensures forall node :: node in nodes ==> events[node] == []
    {
      now := 0.0;
      firstCwnd := map node | node in nodes :: true;
      firstSshThr := map node | node in nodes :: true;
      cWndValue, ssThreshValue := map[], map[];
      cWndStream := map node | node in nodes :: [];
      ssThreshStream := map node | node in nodes :: [];
      events := map node | node in nodes :: [];
    }

    /** Simulated time only moves forward. */
    method Advance(time: real)
      requires View().Valid() && time >= now
      modifies this`now
      ensures View().Valid() && now == time
    {
      ghost var m := View();
      now := time;
      forall node | node in events ensures View().NodeInv(node) {
        assert m.NodeInv(node);
      }
    }

    method CwndTracer(context: string, oldval: nat, newval: nat)
      requires Knows(View(), context)
      modifies this
      ensures View() == AfterCwnd(old(View()), GetNodeIdFromContext(context).value, oldval, newval)
    {
      hide GetNodeIdFromContext, FileInv;
      var nodeId := GetNodeIdFromContext(context).value;
      ghost var m := AfterCwnd(View(), nodeId, oldval, newval);
      events := m.events;
      if Get(firstCwnd, nodeId, false) {
        cWndStream := cWndStream[nodeId := cWndStream[nodeId] + [Line(0.0, oldval)]];
        firstCwnd := firstCwnd[nodeId := false];
      }
      cWndStream := cWndStream[nodeId := cWndStream[nodeId] + [Line(now, newval)]];
      cWndValue := cWndValue[nodeId := newval];
      if !Get(firstSshThr, nodeId, false) {
        ssThreshStream := ssThreshStream[nodeId := ssThreshStream[nodeId] + [Line(now, Get(ssThreshValue, nodeId, 0))]];
      }
      SameMaps(View(), m);
    }

    method SsThreshTracer(context: string, oldval: nat, newval: nat)
      requires Knows(View(), context)
      modifies this
      ensures View() == AfterSsThresh(old(View()), GetNodeIdFromContext(context).value, oldval, newval)
    {
      hide GetNodeIdFromContext, FileInv;
      var nodeId := GetNodeIdFromContext(context).value;
      ghost var m := AfterSsThresh(View(), nodeId, oldval, newval);
      events := m.events;
      if Get(firstSshThr, nodeId, false) {
        ssThreshStream := ssThreshStream[nodeId := ssThreshStream[nodeId] + [Line(0.0, oldval)]];
        firstSshThr := firstSshThr[nodeId := false];
      }
      ssThreshStream := ssThreshStream[nodeId := ssThreshStream[nodeId] + [Line(now, newval)]];
      ssThreshValue := ssThreshValue[nodeId := newval];
      if !Get(firstCwnd, nodeId, false) {
        cWndStream := cWndStream[nodeId := cWndStream[nodeId] + [Line(now, Get(cWndValue, nodeId, 0))]];
      }
      SameMaps(View(), m);
    }

    /** One change, reported at its time with the context the tracer was connected with. */
    method OnChange(node: nat, e: Event)
      requires View().Valid() && node in events && node < TWO_TO_THE_32 && e.time >= now
      modifies this
      ensures View().Valid() && now == e.time
      ensures events == old(events)[node := old(events)[node] + [e]]
    {
      Advance(e.time);
      ghost var m := View();
      assert m.NodeInv(node);
      if e.kind == Cwnd {
        ContextGivesNode(node, CWND_PATH);
        CwndKeeps(m, node, e.before, e.after);
        CwndTracer("/NodeList/" + Decimal(node) + CWND_PATH, e.before, e.after);
      } else {
        ContextGivesNode(node, SSTHRESH_PATH);
        SsThreshKeeps(m, node, e.before, e.after);
        SsThreshTracer("/NodeList/" + Decimal(node) + SSTHRESH_PATH, e.before, e.after);
      }
    }

    /** Any sequence of changes, in any interleaving over nodes and quantities, as time goes on. */
    method Run(changes: seq<(nat, Event)>)
      requires View().Valid()
      requires Schedule(changes, events.Keys, now)
      modifies this
      ensures View().Valid()
      ensures events == Recorded(old(events), changes)
      decreases |changes|
    {
      if changes != [] {
        OnChange(changes[0].0, changes[0].1);
        assert events.Keys == old(events.Keys);
        Run(changes[1..]);
      }
    }
  }

  const CWND_PATH := "/" + "$ns3::TcpL4Protocol/SocketList/0/CongestionWindow"
  const SSTHRESH_PATH := "/" + "$ns3::TcpL4Protocol/SocketList/0/SlowStartThreshold"

  /** The changes concern traced nodes and come in the order of time. */
  ghost predicate Schedule(changes: seq<(nat, Event)>, nodes: set<nat>, now: real) {
    changes != [] ==>
      && changes[0].0 in nodes && changes[0].0 < TWO_TO_THE_32 && now <= changes[0].1.time
      && Schedule(changes[1..], nodes, changes[0].1.time)
  }

  /** The histories after some changes. */
  ghost function Recorded(events: map<nat, seq<Event>>, changes: seq<(nat, Event)>): map<nat, seq<Event>>
    decreases |changes|
  {
    if changes == [] then events
    else
      var node, e := changes[0].0, changes[0].1;
      Recorded(events[node := Get(events, node, []) + [e]], changes[1..])
  }

  /** picks are the positions of the changes of a node, in order. */
  ghost predicate Picks(changes: seq<(nat, Event)>, node: nat, picks: seq<nat>) {
    && (forall k :: 0 <= k < |picks| ==> picks[k] < |changes|)
    && (forall j, k :: 0 <= j < k < |picks| ==> picks[j] < picks[k])
    && (forall i: nat :: i in picks <==> i < |changes| && changes[i].0 == node)
  }

  ghost function Shifted(picks: seq<nat>): (r: seq<nat>)
    ensures |r| == |picks| && forall k :: 0 <= k < |r| ==> r[k] == picks[k] + 1
  {
    seq(|picks|, k requires 0 <= k < |picks| => picks[k] + 1)
  }

  lemma ShiftedMembers(picks: seq<nat>, i: nat)
    ensures i in Shifted(picks) <==> i > 0 && i - 1 in picks
  {
    if i in Shifted(picks) {
      var k :| 0 <= k < |picks| && Shifted(picks)[k] == i;
      assert picks[k] in picks;
    }
    if i > 0 && i - 1 in picks {
      var k :| 0 <= k < |picks| && picks[k] == i - 1;
      assert Shifted(picks)[k] == i;
    }
  }

  lemma PicksStep(changes: seq<(nat, Event)>, node: nat, rest: seq<nat>)
    requires changes != [] && Picks(changes[1..], node, rest)
    ensures Picks(changes, node, (if changes[0].0 == node then [0] else []) + Shifted(rest))
  {
    var picks := (if changes[0].0 == node then [0] else []) + Shifted(rest);
    assert forall i: nat :: 0 < i < |changes| ==> changes[1..][i - 1] == changes[i];
    forall i: nat ensures i in picks <==> i < |changes| && changes[i].0 == node {
      ShiftedMembers(rest, i);
      assert i in picks <==> (i == 0 && changes[0].0 == node) || i in Shifted(rest);
      assert i > 0 ==> (i - 1 in rest <==> i - 1 < |changes[1..]| && changes[1..][i - 1].0 == node);
    }
  }

  /** has is had and then the changes at these positions. */
  ghost predicate Extends(has: seq<Event>, had: seq<Event>, changes: seq<(nat, Event)>, picks: seq<nat>)
    requires forall k :: 0 <= k < |picks| ==> picks[k] < |changes|
  {
    && |has| == |had| + |picks| && has[..|had|] == had
    && forall k :: 0 <= k < |picks| ==> has[|had| + k] == changes[picks[k]].1
  }

  lemma ExtendsMine(has: seq<Event>, had: seq<Event>, changes: seq<(nat, Event)>, rest: seq<nat>)
    requires changes != [] && forall k :: 0 <= k < |rest| ==> rest[k] < |changes[1..]|
    requires Extends(has, had + [changes[0].1], changes[1..], rest)
    ensures Extends(has, had, changes, [0] + Shifted(rest))
  {
    var mid, picks := had + [changes[0].1], [0] + Shifted(rest);
    assert has[..|had|] == has[..|mid|][..|had|] == had;
    assert has[|had|] == has[..|mid|][|had|] == changes[0].1;
    forall k | 0 < k < |picks| ensures has[|had| + k] == changes[picks[k]].1 {
      assert picks[k] == rest[k - 1] + 1;
      assert has[|mid| + (k - 1)] == changes[1..][rest[k - 1]].1;
    }
  }

  lemma ExtendsOther(has: seq<Event>, had: seq<Event>, changes: seq<(nat, Event)>, rest: seq<nat>)
    requires changes != [] && forall k :: 0 <= k < |rest| ==> rest[k] < |changes[1..]|
    requires Extends(has, had, changes[1..], rest)
    ensures Extends(has, had, changes, [] + Shifted(rest))
  {
    assert [] + Shifted(rest) == Shifted(rest);
    forall k | 0 <= k < |rest| ensures has[|had| + k] == changes[Shifted(rest)[k]].1 {
      assert has[|had| + k] == changes[1..][rest[k]].1;
    }
  }

  lemma ExtendsStep(has: seq<Event>, had: seq<Event>, changes: seq<(nat, Event)>, node: nat, rest: seq<nat>)
    requires changes != [] && Picks(changes[1..], node, rest)
    requires var mine := changes[0].0 == node;
             Extends(has, if mine then had + [changes[0].1] else had, changes[1..], rest)
    ensures var picks := (if changes[0].0 == node then [0] else []) + Shifted(rest);
            Picks(changes, node, picks) && Extends(has, had, changes, picks)
  {
    PicksStep(changes, node, rest);
    hide Extends;
    if changes[0].0 == node {
      ExtendsMine(has, had, changes, rest);
    } else {
      ExtendsOther(has, had, changes, rest);
    }
  }

  /** What is recorded of a node are its changes, in their order. */
  lemma {:induction false} RecordedPicks(events: map<nat, seq<Event>>, changes: seq<(nat, Event)>, node: nat)
    returns (picks: seq<nat>)
    ensures Picks(changes, node, picks)
    ensures Extends(Get(Recorded(events, changes), node, []), Get(events, node, []), changes, picks)
    decreases |changes|
  {
    if changes == [] {
      picks := [];
    } else {
      var next := events[changes[0].0 := Get(events, changes[0].0, []) + [changes[0].1]];
      var rest := RecordedPicks(next, changes[1..], node);
      ExtendsStep(Get(Recorded(next, changes[1..]), node, []), Get(events, node, []), changes, node, rest);
      hide Picks, Extends;
      picks := (if changes[0].0 == node then [0] else []) + Shifted(rest);
    }
  }

  /** Change i is the last of that node and quantity up to time t. */
  ghost predicate LastChange(changes: seq<(nat, Event)>, node: nat, kind: Kind, t: real, i: nat) {
    && i < |changes| && changes[i].0 == node && changes[i].1.kind == kind && changes[i].1.time <= t
    && forall j :: i < j < |changes| && changes[j].0 == node && changes[j].1.kind == kind ==> changes[j].1.time > t
  }

  /** Change i is the first of that node and quantity. */
  ghost predicate FirstChange(changes: seq<(nat, Event)>, node: nat, kind: Kind, i: nat) {
    && i < |changes| && changes[i].0 == node && changes[i].1.kind == kind
    && forall j :: 0 <= j < i ==> changes[j].0 != node || changes[j].1.kind != kind
  }

  /** The file of a node and a quantity shows the changes reported for them: at every time what the last
      change up to then has left, and before the first change, from time 0 on, what that change found. */
  ghost predicate ShowsChanges(file: seq<Line>, changes: seq<(nat, Event)>, node: nat, kind: Kind) {
    && (forall t: real, i: nat :: LastChange(changes, node, kind, t, i) ==> Replay(file, t) == Some(changes[i].1.after))
    && (forall t: real, f: nat :: FirstChange(changes, node, kind, f) && NoChangeUpTo(changes, node, kind, t)
          ==> Replay(file, t) == if 0.0 <= t then Some(changes[f].1.before) else None)
  }

  ghost predicate NoChangeUpTo(changes: seq<(nat, Event)>, node: nat, kind: Kind, t: real) {
    forall j :: 0 <= j < |changes| && changes[j].0 == node && changes[j].1.kind == kind ==> changes[j].1.time > t
  }

  lemma Position(picks: seq<nat>, i: nat) returns (k: nat)
    requires i in picks
    ensures k < |picks| && picks[k] == i
  {
    k :| 0 <= k < |picks| && picks[k] == i;
  }

  /** The changes of a node are its events. */
  ghost predicate SameEvents(events: seq<Event>, changes: seq<(nat, Event)>, node: nat, picks: seq<nat>) {
    && Picks(changes, node, picks) && |events| == |picks|
    && forall k :: 0 <= k < |picks| ==> events[k] == changes[picks[k]].1
  }

  lemma LastIsLast(events: seq<Event>, changes: seq<(nat, Event)>, node: nat, picks: seq<nat>, kind: Kind, t: real, i: nat)
    returns (k: nat)
    requires SameEvents(events, changes, node, picks) && LastChange(changes, node, kind, t, i)
    ensures LastOwn(events, kind, t, k) && events[k] == changes[i].1
  {
    k := Position(picks, i);
    forall j | k < j < |events| && events[j].kind == kind ensures events[j].time > t {
      assert picks[j] > i && picks[j] in picks;
    }
  }

  lemma FirstIsFirst(events: seq<Event>, changes: seq<(nat, Event)>, node: nat, picks: seq<nat>, kind: Kind, f: nat)
    returns (k: nat)
    requires SameEvents(events, changes, node, picks) && FirstChange(changes, node, kind, f)
    ensures FirstOwn(events, kind, k) && events[k] == changes[f].1
  {
    k := Position(picks, f);
    forall j | 0 <= j < k ensures events[j].kind != kind {
      assert picks[j] < f && picks[j] in picks;
    }
  }

  lemma NoneIsNone(events: seq<Event>, changes: seq<(nat, Event)>, node: nat, picks: seq<nat>, kind: Kind, t: real)
    requires SameEvents(events, changes, node, picks) && NoChangeUpTo(changes, node, kind, t)
    ensures NoneUpTo(events, kind, t)
  {
    forall j | 0 <= j < |events| && events[j].kind == kind ensures events[j].time > t {
      assert picks[j] in picks;
    }
  }

  /** A file that the tracers keep shows the changes of its node and quantity. */
  lemma FileShowsChanges(events: seq<Event>, changes: seq<(nat, Event)>, node: nat, picks: seq<nat>, kind: Kind,
                         first: bool, value: nat, file: seq<Line>, now: real)
    requires SameEvents(events, changes, node, picks) && FileInv(events, kind, first, value, file, now)
    ensures ShowsChanges(file, changes, node, kind)
  {
    assert SameReplay(file, History(events, kind));
    hide History, Replay, SameEvents, FileInv;
    forall t: real, i: nat | LastChange(changes, node, kind, t, i) ensures Replay(file, t) == Some(changes[i].1.after) {
      var k := LastIsLast(events, changes, node, picks, kind, t, i);
      HistoryAfter(events, kind, t, k);
    }
    forall t: real, f: nat | FirstChange(changes, node, kind, f) && NoChangeUpTo(changes, node, kind, t)
      ensures Replay(file, t) == if 0.0 <= t then Some(changes[f].1.before) else None
    {
      var k := FirstIsFirst(events, changes, node, picks, kind, f);
      NoneIsNone(events, changes, node, picks, kind, t);
      HistoryBefore(events, kind, t, k);
    }
  }

  /** Change l is the last of the node, of either quantity. */
  ghost predicate LastOfNode(changes: seq<(nat, Event)>, node: nat, l: nat) {
    l < |changes| && changes[l].0 == node && forall j :: l < j < |changes| ==> changes[j].0 != node
  }

  /** A file that has begun reaches up to the last change of its node, of either quantity. */
  ghost predicate UpToDate(file: seq<Line>, changes: seq<(nat, Event)>, node: nat, kind: Kind) {
    forall f: nat, l: nat :: FirstChange(changes, node, kind, f) && LastOfNode(changes, node, l) ==>
      file != [] && file[|file| - 1].time == changes[l].1.time
  }

  lemma FileIsUpToDate(events: seq<Event>, changes: seq<(nat, Event)>, node: nat, picks: seq<nat>, kind: Kind,
                       first: bool, value: nat, file: seq<Line>, now: real)
    requires SameEvents(events, changes, node, picks) && FileInv(events, kind, first, value, file, now)
    ensures UpToDate(file, changes, node, kind)
  {
    HistoryIsEmpty(events, kind);
    hide History, SameReplay, TimeOrdered;
    forall f: nat, l: nat | FirstChange(changes, node, kind, f) && LastOfNode(changes, node, l)
      ensures file != [] && file[|file| - 1].time == changes[l].1.time
    {
      var j := FirstIsFirst(events, changes, node, picks, kind, f);
      var k := Position(picks, l);
      assert picks[|picks| - 1] in picks;
      assert k == |picks| - 1;
    }
  }

  /** The files of one node after a run. */
  ghost predicate NodeShows(cwnd: seq<Line>, ssThresh: seq<Line>, changes: seq<(nat, Event)>, node: nat) {
    && (forall i, j :: 0 <= i < j < |cwnd| ==> cwnd[i].time <= cwnd[j].time)
    && ShowsChanges(cwnd, changes, node, Cwnd) && UpToDate(cwnd, changes, node, Cwnd)
    && (forall i, j :: 0 <= i < j < |ssThresh| ==> ssThresh[i].time <= ssThresh[j].time)
    && ShowsChanges(ssThresh, changes, node, SsThresh) && UpToDate(ssThresh, changes, node, SsThresh)
  }

  lemma NodeShowsChanges(m: Maps, before: map<nat, seq<Event>>, changes: seq<(nat, Event)>, node: nat)
    requires m.Valid() && node in m.events && m.events == Recorded(before, changes)
    requires Get(before, node, []) == []
    ensures m.HasStreams(node) && NodeShows(m.cWndStream[node], m.ssThreshStream[node], changes, node)
  {
    assert m.NodeInv(node);
    var picks := RecordedPicks(before, changes, node);
    hide Replay, History, SameReplay, Recorded, ShowsChanges, UpToDate, Picks;
    assert SameEvents(m.events[node], changes, node, picks);
    FileShowsChanges(m.events[node], changes, node, picks, Cwnd, Get(m.firstCwnd, node, false),
                     Get(m.cWndValue, node, 0), m.cWndStream[node], m.now);
    FileShowsChanges(m.events[node], changes, node, picks, SsThresh, Get(m.firstSshThr, node, false),
                     Get(m.ssThreshValue, node, 0), m.ssThreshStream[node], m.now);
    FileIsUpToDate(m.events[node], changes, node, picks, Cwnd, Get(m.firstCwnd, node, false),
                   Get(m.cWndValue, node, 0), m.cWndStream[node], m.now);
    FileIsUpToDate(m.events[node], changes, node, picks, SsThresh, Get(m.firstSshThr, node, false),
                   Get(m.ssThreshValue, node, 0), m.ssThreshStream[node], m.now);
  }

  /** A whole simulation: the tracers set up for some nodes, and any changes in the order of time.  Every
      file is in the order of time and shows what was reported for its node and quantity. */
  method Simulate(nodes: set<nat>, changes: seq<(nat, Event)>) returns (tracers: Tracers)
    requires Schedule(changes, nodes, 0.0)
    ensures fresh(tracers)
    ensures forall node :: node in nodes ==>
              && node in tracers.cWndStream && node in tracers.ssThreshStream
              && NodeShows(tracers.cWndStream[node], tracers.ssThreshStream[node], changes, node)
  {
    hide NodeShows;
    tracers := new Tracers(nodes);
    ghost var before := tracers.events;
    tracers.Run(changes);
    forall node | node in nodes
      ensures node in tracers.cWndStream && node in tracers.ssThreshStream
      ensures NodeShows(tracers.cWndStream[node], tracers.ssThreshStream[node], changes, node)
    {
      RecordedNodes(before, changes, node);
      NodeShowsChanges(tracers.View(), before, changes, node);
    }
  }

  lemma {:induction false} RecordedNodes(events: map<nat, seq<Event>>, changes: seq<(nat, Event)>, node: nat)
    requires node in events
    ensures node in Recorded(events, changes)
    decreases |changes|
  {
    if changes != [] {
      RecordedNodes(events[changes[0].0 := Get(events, changes[0].0, []) + [changes[0].1]], changes[1..], node);
    }
  }

  lemma SameMaps(a: Maps, b: Maps)
    requires a.now == b.now && a.firstCwnd == b.firstCwnd && a.firstSshThr == b.firstSshThr
    requires a.cWndValue == b.cWndValue && a.ssThreshValue == b.ssThreshValue
    requires a.cWndStream == b.cWndStream && a.ssThreshStream == b.ssThreshStream && a.events == b.events
    ensures a == b
  {
  }
}
