/** `check_manually_file` of utils/check-style-clang-format.py: a state machine over the lines of a
    file, with guard lines that switch the check off and on, and an in-place fixer. */
module StyleCheck {
  import opened Text

  /** What a check_*_line function returns: whether the line complies, and the line to write instead. */
  datatype LineResult = LineResult(compliant: bool, fixed: string)

  type LineCheck = string -> LineResult

  datatype Guard = On | Off | NoGuard

  const FORMAT_GUARD_ON := ["// clang-format on", "# cmake-format: on", "# fmt: on"]
  const FORMAT_GUARD_OFF := ["// clang-format off", "# cmake-format: off", "# fmt: off"]

  function GuardOf(line: string): Guard {
    var stripped := Strip(IsSpace, line);
    if stripped in FORMAT_GUARD_ON then On else if stripped in FORMAT_GUARD_OFF then Off else NoGuard
  }

  /** clang_format_enabled after a line. */
  function Next(guards: bool, enabled: bool, line: string): bool {
    if !guards then enabled
    else
      match GuardOf(line)
      case On => true
      case Off => false
      case NoGuard => enabled
  }

  /** Is the line given to the line check?  enabled is the state before the line. */
  predicate Checked(guards: bool, enabled: bool, line: string) {
    !guards || enabled || GuardOf(line) != NoGuard
  }

  predicate BadLine(check: LineCheck, guards: bool, enabled: bool, line: string) {
    Checked(guards, enabled, line) && !check(line).compliant
  }

  /** Do all the checked lines comply? */
  ghost predicate Compliant(check: LineCheck, guards: bool, enabled: bool, lines: seq<string>)
    decreases |lines|
  {
    lines != [] ==>
      && !BadLine(check, guards, enabled, lines[0])
      && Compliant(check, guards, Next(guards, enabled, lines[0]), lines[1..])
  }

  /** The lines with every bad one fixed. */
  ghost function Fixed(check: LineCheck, guards: bool, enabled: bool, lines: seq<string>): (r: seq<string>)
    ensures |r| == |lines|
    decreases |lines|
  {
    if lines == [] then []
    else
      [if BadLine(check, guards, enabled, lines[0]) then check(lines[0]).fixed else lines[0]]
      + Fixed(check, guards, Next(guards, enabled, lines[0]), lines[1..])
  }

  /** The numbers of the bad lines; the first of the lines has number n. */
  ghost function BadLines(check: LineCheck, guards: bool, enabled: bool, lines: seq<string>, n: nat): seq<nat>
    decreases |lines|
  {
    if lines == [] then []
    else
      (if BadLine(check, guards, enabled, lines[0]) then [n] else [])
      + BadLines(check, guards, Next(guards, enabled, lines[0]), lines[1..], n + 1)
  }

  /** What a run in fix mode leaves in the file. */
  ghost function AfterFix(check: LineCheck, guards: bool, content: string): string {
    var lines := ReadLines(content);
    if Compliant(check, guards, true, lines) then content else Write(Fixed(check, guards, true, lines))
  }

  // ---------------------------------------------------------------------------------------------
  // Fixing
  // ---------------------------------------------------------------------------------------------

  /** What a line check has to promise about one line. */
  ghost predicate LawfulOn(check: LineCheck, guards: bool, line: string) {
    var r := check(line);
    && (!r.compliant && r.fixed != "" ==> IsLine(r.fixed) && check(r.fixed).compliant)
    && (!r.compliant && r.fixed != "" && Ended(line) ==> Ended(r.fixed))
    && (!r.compliant && guards && GuardOf(line) != NoGuard ==> GuardOf(r.fixed) == GuardOf(line))
  }

  ghost predicate Lawful(check: LineCheck, guards: bool) {
    forall line :: IsLine(line) ==> LawfulOn(check, guards, line)
  }

  /** The lines that are left when the deleted ones, which were replaced by "", vanish. */
  ghost function DropEmpty(lines: seq<string>): seq<string> {
    if lines == [] then []
    else (if lines[0] == "" then [] else [lines[0]]) + DropEmpty(lines[1..])
  }

  lemma {:induction false} WriteDropsEmpty(lines: seq<string>)
    ensures Write(DropEmpty(lines)) == Write(lines)
  {
    if lines != [] {
      WriteDropsEmpty(lines[1..]);
      if lines[0] != "" {
        assert ([lines[0]] + DropEmpty(lines[1..]))[1..] == DropEmpty(lines[1..]);
      } else {
        assert DropEmpty(lines) == DropEmpty(lines[1..]);
        assert lines[0] + Write(lines[1..]) == Write(lines[1..]);
      }
    }
  }

  lemma TailOfLines(lines: seq<string>)
    requires AreLines(lines) && lines != []
    ensures AreLines(lines[1..]) && IsLine(lines[0]) && (lines[1..] != [] ==> Ended(lines[0]))
  {
    assert forall i :: 0 <= i < |lines[1..]| ==> lines[1..][i] == lines[i + 1];
  }

  lemma ConsLine(l: string, lines: seq<string>)
    requires IsLine(l) && AreLines(lines) && (lines != [] ==> Ended(l))
    ensures AreLines([l] + lines)
  {
  }

  lemma {:induction false} FixedAreLines(check: LineCheck, guards: bool, enabled: bool, lines: seq<string>)
    requires Lawful(check, guards) && AreLines(lines)
    ensures AreLines(DropEmpty(Fixed(check, guards, enabled, lines)))
    ensures lines == [] ==> DropEmpty(Fixed(check, guards, enabled, lines)) == []
    decreases |lines|
  {
    if lines != [] {
      TailOfLines(lines);
      var next := Next(guards, enabled, lines[0]);
      FixedAreLines(check, guards, next, lines[1..]);
      assert LawfulOn(check, guards, lines[0]);
      var f := Fixed(check, guards, enabled, lines);
      assert f[1..] == Fixed(check, guards, next, lines[1..]);
      if f[0] != "" {
        ConsLine(f[0], DropEmpty(f[1..]));
      } else {
        assert DropEmpty(f) == DropEmpty(f[1..]);
      }
    }
  }

  /** The heart of the matter.  The second run may start with the check switched off where the first
      had it on (a tab fix can make a new guard line, which only ever switches more off), and lines may
      have vanished in between; still everything it looks at complies. */
  lemma {:induction false} FixedIsCompliant(check: LineCheck, guards: bool, lines: seq<string>, first: bool, second: bool)
    requires Lawful(check, guards) && AreLines(lines) && (second ==> first)
    ensures Compliant(check, guards, second, DropEmpty(Fixed(check, guards, first, lines)))
    decreases |lines|
  {
    if lines != [] {
      TailOfLines(lines);
      var line := lines[0];
      var next := Next(guards, first, line);
      var f := Fixed(check, guards, first, lines);
      assert f[1..] == Fixed(check, guards, next, lines[1..]);
      assert LawfulOn(check, guards, line);
      if f[0] == "" {
        assert DropEmpty(f) == DropEmpty(f[1..]);
        GuardIsText(line);
        GuardIsText("");
        FixedIsCompliant(check, guards, lines[1..], next, second);
      } else {
        assert DropEmpty(f)[0] == f[0] && DropEmpty(f)[1..] == DropEmpty(f[1..]);
        FixedIsCompliant(check, guards, lines[1..], next, Next(guards, second, f[0]));
      }
    }
  }

  /** The characters a guard line starts with, and some it does not contain. */
  lemma GuardIsText(line: string)
    ensures var g := Strip(IsSpace, line);
            GuardOf(line) != NoGuard ==>
              && 9 <= |g| <= 20 && (g[..3] == "// " || g[..2] == "# ")
              && '\t' !in g && 'y' !in g
  {
    hide Strip, IsSpace;
    var g := Strip(IsSpace, line);
    if g in FORMAT_GUARD_ON {
      GuardsOn(g);
    } else if g in FORMAT_GUARD_OFF {
      GuardsOff(g);
    }
  }

  lemma GuardsOn(g: string)
    requires g in FORMAT_GUARD_ON
    ensures 9 <= |g| <= 20 && (g[..3] == "// " || g[..2] == "# ") && '\t' !in g && 'y' !in g
  {
    assert g == "// clang-format on" || g == "# cmake-format: on" || g == "# fmt: on";
  }

  lemma GuardsOff(g: string)
    requires g in FORMAT_GUARD_OFF
    ensures 9 <= |g| <= 20 && (g[..3] == "// " || g[..2] == "# ") && '\t' !in g && 'y' !in g
  {
    assert g == "// clang-format off" || g == "# cmake-format: off" || g == "# fmt: off";
  }

  /** Reading the fixed file again and checking it finds nothing, so a second fix changes nothing. */
  lemma FixThenCheck(check: LineCheck, guards: bool, content: string)
    requires Lawful(check, guards)
    ensures Compliant(check, guards, true, ReadLines(AfterFix(check, guards, content)))
    ensures AfterFix(check, guards, AfterFix(check, guards, content)) == AfterFix(check, guards, content)
  {
    var lines := ReadLines(content);
    ReadThenWrite(content);
    if !Compliant(check, guards, true, lines) {
      var f := Fixed(check, guards, true, lines);
      FixedAreLines(check, guards, true, lines);
      WriteDropsEmpty(f);
      WriteThenRead(DropEmpty(f));
      FixedIsCompliant(check, guards, lines, true, true);
    }
  }

  // ---------------------------------------------------------------------------------------------
  // Guarded regions
  // ---------------------------------------------------------------------------------------------

  /** clang_format_enabled before line i. */
  ghost function EnabledBefore(guards: bool, enabled: bool, lines: seq<string>, i: nat): bool
    requires i <= |lines|
  {
    if i == 0 then enabled else Next(guards, EnabledBefore(guards, enabled, lines, i - 1), lines[i - 1])
  }

  lemma {:induction false} EnabledShift(guards: bool, enabled: bool, lines: seq<string>, i: nat)
    requires 0 < i <= |lines|
    ensures EnabledBefore(guards, enabled, lines, i) == EnabledBefore(guards, Next(guards, enabled, lines[0]), lines[1..], i - 1)
  {
    if i > 1 {
      EnabledShift(guards, enabled, lines, i - 1);
    }
  }

  /** Line by line: a line changes only if it is checked and bad, and inside a guarded-off region only
      guard lines can be. */
  lemma {:induction false} FixedLine(check: LineCheck, guards: bool, enabled: bool, lines: seq<string>, i: nat)
    requires i < |lines|
    ensures Fixed(check, guards, enabled, lines)[i]
         == if BadLine(check, guards, EnabledBefore(guards, enabled, lines, i), lines[i]) then check(lines[i]).fixed else lines[i]
    ensures guards && !EnabledBefore(guards, enabled, lines, i) && GuardOf(lines[i]) == NoGuard
            ==> Fixed(check, guards, enabled, lines)[i] == lines[i]
    decreases |lines|
  {
    if i > 0 {
      EnabledShift(guards, enabled, lines, i);
      FixedLine(check, guards, Next(guards, enabled, lines[0]), lines[1..], i - 1);
    }
  }

  /** The verdict is the absence of bad lines. */
  lemma {:induction false} CompliantMeansNoBadLine(check: LineCheck, guards: bool, enabled: bool, lines: seq<string>, n: nat)
    ensures Compliant(check, guards, enabled, lines) <==> BadLines(check, guards, enabled, lines, n) == []
    ensures Compliant(check, guards, enabled, lines)
            <==> forall i :: 0 <= i < |lines| ==>
                   !BadLine(check, guards, EnabledBefore(guards, enabled, lines, i), lines[i])
    decreases |lines|
  {
    if lines != [] {
      var next, rest := Next(guards, enabled, lines[0]), lines[1..];
      CompliantMeansNoBadLine(check, guards, next, rest, n + 1);
      forall i | 0 < i < |lines|
        ensures BadLine(check, guards, EnabledBefore(guards, enabled, lines, i), lines[i])
            <==> BadLine(check, guards, EnabledBefore(guards, next, rest, i - 1), rest[i - 1])
      {
        EnabledShift(guards, enabled, lines, i);
      }
      if Compliant(check, guards, enabled, lines) {
        forall i | 0 <= i < |lines| ensures !BadLine(check, guards, EnabledBefore(guards, enabled, lines, i), lines[i]) {
          if i > 0 {
            assert !BadLine(check, guards, EnabledBefore(guards, next, rest, i - 1), rest[i - 1]);
          }
        }
      } else if !BadLine(check, guards, enabled, lines[0]) {
        var k :| 0 <= k < |rest| && BadLine(check, guards, EnabledBefore(guards, next, rest, k), rest[k]);
        assert BadLine(check, guards, EnabledBefore(guards, enabled, lines, k + 1), lines[k + 1]);
      } else {
        assert BadLine(check, guards, EnabledBefore(guards, enabled, lines, 0), lines[0]);
      }
    }
  }

  // ---------------------------------------------------------------------------------------------
  // Which lines are looked at
  // ---------------------------------------------------------------------------------------------

  ghost predicate SwitchesOn(line: string) {
    var text := Strip(IsSpace, line);
    text == "// clang-format on" || text == "# cmake-format: on" || text == "# fmt: on"
  }

  ghost predicate SwitchesOff(line: string) {
    var text := Strip(IsSpace, line);
    text == "// clang-format off" || text == "# cmake-format: off" || text == "# fmt: off"
  }

  ghost predicate Switches(line: string) {
    SwitchesOn(line) || SwitchesOff(line)
  }

  /** No guard before line i, or the last one is one that switches on. */
  ghost predicate OnAt(lines: seq<string>, i: nat)
    requires i <= |lines|
  {
    || (forall k :: 0 <= k < i ==> !Switches(lines[k]))
    || (exists k: nat :: LastGuard(lines, k, i) && SwitchesOn(lines[k]))
  }

  /** Line i is given to the check. */
  ghost predicate LooksAt(guards: bool, lines: seq<string>, i: nat)
    requires i < |lines|
  {
    !guards || OnAt(lines, i) || Switches(lines[i])
  }

  lemma GuardExactly(line: string)
    ensures GuardOf(line) == if SwitchesOn(line) then On else if SwitchesOff(line) then Off else NoGuard
    ensures !(SwitchesOn(line) && SwitchesOff(line))
  {
    OnTexts(Strip(IsSpace, line));
    hide Strip, IsSpace;
  }

  lemma OnTexts(text: string)
    ensures text in FORMAT_GUARD_ON
            <==> text == "// clang-format on" || text == "# cmake-format: on" || text == "# fmt: on"
    ensures text in FORMAT_GUARD_OFF
            <==> text == "// clang-format off" || text == "# cmake-format: off" || text == "# fmt: off"
    ensures !(text in FORMAT_GUARD_ON && text in FORMAT_GUARD_OFF)
  {
    OnNotOff(text);
  }

  lemma OnNotOff(text: string)
    ensures text in FORMAT_GUARD_ON ==> text[|text| - 1] == 'n'
    ensures text in FORMAT_GUARD_OFF ==> text[|text| - 1] == 'f'
  {
    assert FORMAT_GUARD_ON[0] == "// clang-format on" && |FORMAT_GUARD_ON[0]| == 18 && FORMAT_GUARD_ON[0][17] == 'n';
    assert FORMAT_GUARD_ON[1] == "# cmake-format: on" && |FORMAT_GUARD_ON[1]| == 18 && FORMAT_GUARD_ON[1][17] == 'n';
    assert FORMAT_GUARD_ON[2] == "# fmt: on" && |FORMAT_GUARD_ON[2]| == 9 && FORMAT_GUARD_ON[2][8] == 'n';
    assert FORMAT_GUARD_OFF[0] == "// clang-format off" && |FORMAT_GUARD_OFF[0]| == 19 && FORMAT_GUARD_OFF[0][18] == 'f';
    assert FORMAT_GUARD_OFF[1] == "# cmake-format: off" && |FORMAT_GUARD_OFF[1]| == 19 && FORMAT_GUARD_OFF[1][18] == 'f';
    assert FORMAT_GUARD_OFF[2] == "# fmt: off" && |FORMAT_GUARD_OFF[2]| == 10 && FORMAT_GUARD_OFF[2][9] == 'f';
  }

  /** Line k is the last guard before line i. */
  ghost predicate LastGuard(lines: seq<string>, k: nat, i: nat)
    requires i <= |lines|
  {
    k < i && Switches(lines[k]) && forall m :: k < m < i ==> !Switches(lines[m])
  }

  lemma OnAtNext(lines: seq<string>, i: nat)
    requires i < |lines|
    ensures OnAt(lines, i + 1)
            <==> if SwitchesOn(lines[i]) then true else if SwitchesOff(lines[i]) then false else OnAt(lines, i)
  {
    GuardExactly(lines[i]);
    hide SwitchesOn, SwitchesOff;
    if Switches(lines[i]) {
      assert LastGuard(lines, i, i + 1);
    } else {
      NoGuardNext(lines, i);
      hide Switches, LastGuard;
    }
  }

  lemma NoGuardNext(lines: seq<string>, i: nat)
    requires i < |lines| && !Switches(lines[i])
    ensures forall k: nat :: LastGuard(lines, k, i + 1) <==> LastGuard(lines, k, i)
    ensures (forall k :: 0 <= k < i + 1 ==> !Switches(lines[k])) <==> forall k :: 0 <= k < i ==> !Switches(lines[k])
  {
    hide Switches;
    forall k: nat ensures LastGuard(lines, k, i + 1) <==> LastGuard(lines, k, i) {
    }
  }

  lemma NoGuardYet(guards: bool, lines: seq<string>)
    ensures EnabledBefore(guards, true, lines, 0) && OnAt(lines, 0)
  {
  }

  /** The check is on before a line exactly if guards are ignored or the last guard before it, if any, is one
      that switches on. */
  lemma {:induction false} EnabledExactly(guards: bool, lines: seq<string>, i: nat)
    requires i <= |lines|
    ensures EnabledBefore(guards, true, lines, i) <==> !guards || OnAt(lines, i)
  {
    hide *;
    if i == 0 {
      NoGuardYet(guards, lines);
    } else {
      EnabledExactly(guards, lines, i - 1);
      EnabledNext(guards, lines, i - 1);
    }
  }

  lemma EnabledNext(guards: bool, lines: seq<string>, i: nat)
    requires i < |lines| && (EnabledBefore(guards, true, lines, i) <==> !guards || OnAt(lines, i))
    ensures EnabledBefore(guards, true, lines, i + 1) <==> !guards || OnAt(lines, i + 1)
  {
    OnAtNext(lines, i);
    GuardExactly(lines[i]);
    hide OnAt, SwitchesOn, SwitchesOff, GuardOf;
  }

  /** A line is bad exactly if the check looks at it and does not accept it. */
  lemma BadExactly(check: LineCheck, guards: bool, lines: seq<string>, i: nat)
    requires i < |lines|
    ensures BadLine(check, guards, EnabledBefore(guards, true, lines, i), lines[i])
            <==> LooksAt(guards, lines, i) && !check(lines[i]).compliant
  {
    EnabledExactly(guards, lines, i);
    GuardExactly(lines[i]);
    hide OnAt, SwitchesOn, SwitchesOff, GuardOf, EnabledBefore;
  }

  /** Some line is looked at and not accepted. */
  ghost predicate IsRejected(check: LineCheck, guards: bool, lines: seq<string>, i: nat) {
    i < |lines| && LooksAt(guards, lines, i) && !check(lines[i]).compliant
  }

  /** The verdict, without the state machine: every line that is looked at is accepted. */
  lemma CompliantExactly(check: LineCheck, guards: bool, lines: seq<string>)
    ensures Compliant(check, guards, true, lines) <==> forall i: nat :: !IsRejected(check, guards, lines, i)
  {
    CompliantMeansNoBadLine(check, guards, true, lines, 0);
    forall i | 0 <= i < |lines|
      ensures BadLine(check, guards, EnabledBefore(guards, true, lines, i), lines[i]) <==> IsRejected(check, guards, lines, i)
    {
      BadExactly(check, guards, lines, i);
    }
    hide BadLine, EnabledBefore, LooksAt;
  }

  /** The fixed file, without the state machine: the lines rejected are replaced and no others. */
  lemma FixedExactly(check: LineCheck, guards: bool, lines: seq<string>, i: nat)
    requires i < |lines|
    ensures Fixed(check, guards, true, lines)[i]
         == if IsRejected(check, guards, lines, i) then check(lines[i]).fixed else lines[i]
  {
    FixedLine(check, guards, true, lines, i);
    BadExactly(check, guards, lines, i);
  }

  ghost predicate Ascending(numbers: seq<nat>, from: nat) {
    && (forall k :: 0 <= k < |numbers| ==> from <= numbers[k])
    && (forall j, k :: 0 <= j < k < |numbers| ==> numbers[j] < numbers[k])
  }

  lemma FirstIsLeast(numbers: seq<nat>)
    requires Ascending(numbers, 0)
    ensures numbers != [] ==> Ascending([numbers[0]], 0) && forall x :: x in numbers ==> numbers[0] <= x
  {
  }

  lemma AscendingStep(n: nat, more: seq<nat>)
    requires Ascending(more, n + 1)
    ensures n !in more && Ascending(more, n) && Ascending([n] + more, n)
    ensures forall x :: x in [n] + more <==> x == n || x in more
  {
  }

  lemma {:induction false} BadLinesAscend(check: LineCheck, guards: bool, enabled: bool, lines: seq<string>, n: nat)
    ensures Ascending(BadLines(check, guards, enabled, lines, n), n)
    decreases |lines|
  {
    if lines != [] {
      var next := Next(guards, enabled, lines[0]);
      BadLinesAscend(check, guards, next, lines[1..], n + 1);
      var more := BadLines(check, guards, next, lines[1..], n + 1);
      AscendingStep(n, more);
      hide Ascending, BadLine;
      assert [] + more == more;
    }
  }

  /** fixed is lines with the rejected ones replaced, and nothing else. */
  ghost predicate IsFixed(check: LineCheck, guards: bool, lines: seq<string>, fixed: seq<string>) {
    && |fixed| == |lines|
    && forall i :: 0 <= i < |lines| ==>
         fixed[i] == if IsRejected(check, guards, lines, i) then check(lines[i]).fixed else lines[i]
  }

  lemma AllFixedExactly(check: LineCheck, guards: bool, lines: seq<string>)
    ensures IsFixed(check, guards, lines, Fixed(check, guards, true, lines))
  {
    forall i | 0 <= i < |lines|
      ensures Fixed(check, guards, true, lines)[i]
           == if IsRejected(check, guards, lines, i) then check(lines[i]).fixed else lines[i]
    {
      FixedExactly(check, guards, lines, i);
    }
  }

  /** Line x, counted from n, is bad. */
  ghost predicate IsBadNumber(check: LineCheck, guards: bool, enabled: bool, lines: seq<string>, n: nat, x: nat) {
    n <= x < n + |lines| && BadLine(check, guards, EnabledBefore(guards, enabled, lines, x - n), lines[x - n])
  }

  lemma BadNumberStep(check: LineCheck, guards: bool, enabled: bool, lines: seq<string>, n: nat, x: nat)
    requires lines != []
    ensures IsBadNumber(check, guards, enabled, lines, n, x)
            <==> if x == n then BadLine(check, guards, enabled, lines[0])
                 else IsBadNumber(check, guards, Next(guards, enabled, lines[0]), lines[1..], n + 1, x)
  {
    if n < x < n + |lines| {
      EnabledShift(guards, enabled, lines, x - n);
      assert lines[1..][x - (n + 1)] == lines[x - n];
    }
    hide BadLine, Next;
  }

  lemma BadLinesStep(check: LineCheck, guards: bool, enabled: bool, lines: seq<string>, n: nat, x: nat)
    requires lines != []
    ensures x in BadLines(check, guards, enabled, lines, n)
            <==> if x == n then BadLine(check, guards, enabled, lines[0])
                 else x in BadLines(check, guards, Next(guards, enabled, lines[0]), lines[1..], n + 1)
  {
    var next := Next(guards, enabled, lines[0]);
    BadLinesAscend(check, guards, next, lines[1..], n + 1);
    AscendingStep(n, BadLines(check, guards, next, lines[1..], n + 1));
    hide BadLine, Ascending, Next;
    assert [] + BadLines(check, guards, next, lines[1..], n + 1) == BadLines(check, guards, next, lines[1..], n + 1);
  }

  lemma NoLinesNoNumbers(check: LineCheck, guards: bool, enabled: bool, n: nat, x: nat)
    ensures x !in BadLines(check, guards, enabled, [], n) && !IsBadNumber(check, guards, enabled, [], n, x)
  {
  }

  /** The numbers reported are those of the bad lines. */
  lemma {:induction false} BadLinesMember(check: LineCheck, guards: bool, enabled: bool, lines: seq<string>, n: nat, x: nat)
    ensures x in BadLines(check, guards, enabled, lines, n) <==> IsBadNumber(check, guards, enabled, lines, n, x)
    decreases |lines|
  {
    hide *;
    if lines == [] {
      NoLinesNoNumbers(check, guards, enabled, n, x);
    } else {
      BadNumberStep(check, guards, enabled, lines, n, x);
      BadLinesStep(check, guards, enabled, lines, n, x);
      if x != n {
        BadLinesMember(check, guards, Next(guards, enabled, lines[0]), lines[1..], n + 1, x);
      }
    }
  }

  lemma BadLinesExactly(check: LineCheck, guards: bool, lines: seq<string>)
    ensures var bad := BadLines(check, guards, true, lines, 0);
            Ascending(bad, 0) && forall i: nat :: i in bad <==> IsRejected(check, guards, lines, i)
  {
    BadLinesAscend(check, guards, true, lines, 0);
    forall i: nat ensures i in BadLines(check, guards, true, lines, 0) <==> IsRejected(check, guards, lines, i) {
      RejectedIsBadLine(check, guards, lines, i);
    }
  }

  lemma RejectedIsBadLine(check: LineCheck, guards: bool, lines: seq<string>, i: nat)
    ensures i in BadLines(check, guards, true, lines, 0) <==> IsRejected(check, guards, lines, i)
  {
    BadLinesMember(check, guards, true, lines, 0, i);
    if i < |lines| {
      BadExactly(check, guards, lines, i);
    }
    hide BadLine, EnabledBefore, LooksAt, BadLines;
  }

  // ---------------------------------------------------------------------------------------------
  // The program
  // ---------------------------------------------------------------------------------------------

  /** The state of the loop before line i, in terms of the whole file. */
  ghost predicate AtLine(check: LineCheck, guards: bool, lines: seq<string>, i: nat,
                         enabled: bool, fileLines: seq<string>, infos: seq<nat>) {
    && i <= |lines| == |fileLines|
    && fileLines[i..] == lines[i..]
    && Fixed(check, guards, true, lines) == fileLines[..i] + Fixed(check, guards, enabled, lines[i..])
    && BadLines(check, guards, true, lines, 0) == infos + BadLines(check, guards, enabled, lines[i..], i)
  }

  lemma NextLine(check: LineCheck, guards: bool, lines: seq<string>, i: nat,
                 enabled: bool, fileLines: seq<string>, infos: seq<nat>)
    requires AtLine(check, guards, lines, i, enabled, fileLines, infos) && i < |lines|
    ensures var bad := BadLine(check, guards, enabled, lines[i]);
            && AtLine(check, guards, lines, i + 1, Next(guards, enabled, lines[i]),
                      if bad then fileLines[i := check(lines[i]).fixed] else fileLines,
                      if bad then infos + [i] else infos)
  {
    var rest := lines[i..];
    assert rest[0] == lines[i] && rest[1..] == lines[i + 1..];
    var next := Next(guards, enabled, lines[i]);
    SliceStep(fileLines, lines, i);
    if BadLine(check, guards, enabled, lines[i]) {
      var x := check(lines[i]).fixed;
      Shift(fileLines[..i], x, Fixed(check, guards, next, rest[1..]));
      assert fileLines[i := x][..i + 1] == fileLines[..i] + [x];
      assert fileLines[i := x][i + 1..] == fileLines[i + 1..];
      Shift(infos, i, BadLines(check, guards, next, rest[1..], i + 1));
    } else {
      Shift(fileLines[..i], lines[i], Fixed(check, guards, next, rest[1..]));
      assert fileLines[..i + 1] == fileLines[..i] + [lines[i]];
      assert [] + BadLines(check, guards, next, rest[1..], i + 1) == BadLines(check, guards, next, rest[1..], i + 1);
    }
  }

  lemma AtTheEnd(check: LineCheck, guards: bool, lines: seq<string>, i: nat,
                 enabled: bool, fileLines: seq<string>, infos: seq<nat>)
    requires AtLine(check, guards, lines, i, enabled, fileLines, infos)
    ensures Compliant(check, guards, true, lines) <==> BadLines(check, guards, true, lines, 0) == []
    ensures infos <= BadLines(check, guards, true, lines, 0)
    ensures i == |lines| ==> fileLines == Fixed(check, guards, true, lines)
    ensures i == |lines| ==> infos == BadLines(check, guards, true, lines, 0)
  {
    CompliantMeansNoBadLine(check, guards, true, lines, 0);
    if i == |lines| {
      assert lines[i..] == [] && fileLines[..i] == fileLines;
    }
  }

  lemma SliceStep<T>(a: seq<T>, b: seq<T>, i: nat)
    requires i < |a| == |b| && a[i..] == b[i..]
    ensures a[i] == b[i] && a[i + 1..] == b[i + 1..]
  {
    assert a[i] == a[i..][0] && b[i] == b[i..][0];
    assert a[i + 1..] == a[i..][1..] && b[i + 1..] == b[i..][1..];
  }

  lemma Shift<T>(a: seq<T>, x: T, b: seq<T>)
    ensures a + ([x] + b) == (a + [x]) + b
  {
  }

  /** The guards and the line check on one line. */
  method CheckLine(line: string, guards: bool, enabled: bool, check: LineCheck)
    returns (enabledAfter: bool, bad: bool, fixed: string)
    ensures enabledAfter == Next(guards, enabled, line)
    ensures bad <==> BadLine(check, guards, enabled, line)
    ensures fixed == if bad then check(line).fixed else line
  {
    enabledAfter, bad, fixed := enabled, false, line;
    if guards {
      var guard := GuardOf(line);
      if guard == On {
        enabledAfter := true;
      } else if guard == Off {
        enabledAfter := false;
      }
      if !enabledAfter && guard == NoGuard {
        return;
      }
    }
    var r := check(line);
    if !r.compliant {
      bad, fixed := true, r.fixed;
    }
  }

  /** The loop over the lines. */
  method ScanLines(lines: seq<string>, fix: bool, verbose: bool, guards: bool, check: LineCheck)
    returns (compliant: bool, fileLines: seq<string>, infos: seq<nat>)
    ensures compliant <==> Compliant(check, guards, true, lines)
    ensures fix ==> fileLines == Fixed(check, guards, true, lines)
    ensures var bad := BadLines(check, guards, true, lines, 0);
            infos == if fix || verbose || bad == [] then bad else [bad[0]]
  {
    compliant, infos, fileLines := true, [], lines;
    var enabled := true;
    var i := 0;
    while i < |lines|
      invariant AtLine(check, guards, lines, i, enabled, fileLines, infos)
      invariant compliant <==> infos == []
      invariant compliant || fix || verbose
      decreases |lines| - i
    {
      NextLine(check, guards, lines, i, enabled, fileLines, infos);
      var bad, fixed;
      enabled, bad, fixed := CheckLine(lines[i], guards, enabled, check);
      i := i + 1;
      if bad {
        compliant := false;
        fileLines := fileLines[i - 1 := fixed];
        infos := infos + [i - 1];
        if !fix && !verbose {
          break;
        }
      }
    }
    AtTheEnd(check, guards, lines, i, enabled, fileLines, infos);
  }

  class SourceFile {
    var content: string

    /** Checks, and in fix mode rewrites, the file.  infos are the numbers of the reported lines.  The
        verdict is the same in every mode; the quick mode reports the first bad line only. */
    method CheckManually(fix: bool, verbose: bool, guards: bool, check: LineCheck)
      returns (compliant: bool, infos: seq<nat>)
      modifies this
      ensures compliant <==> Compliant(check, guards, true, ReadLines(old(content)))
      ensures compliant <==> forall i: nat :: !IsRejected(check, guards, ReadLines(old(content)), i)
      ensures forall i :: i in infos ==> IsRejected(check, guards, ReadLines(old(content)), i)
      ensures fix || verbose ==> forall i: nat :: IsRejected(check, guards, ReadLines(old(content)), i) ==> i in infos
      ensures Ascending(infos, 0)
      ensures !fix && !verbose && !compliant ==>
                |infos| == 1 && forall i: nat :: IsRejected(check, guards, ReadLines(old(content)), i) ==> infos[0] <= i
      ensures !fix || compliant ==> content == old(content)
      ensures fix && !compliant ==>
                exists fixed :: IsFixed(check, guards, ReadLines(old(content)), fixed) && content == Write(fixed)
      ensures content == if fix then AfterFix(check, guards, old(content)) else old(content)
      ensures var bad := BadLines(check, guards, true, ReadLines(old(content)), 0);
              infos == if fix || verbose || bad == [] then bad else [bad[0]]
    {
      var fileLines;
      compliant, fileLines, infos := ScanLines(ReadLines(content), fix, verbose, guards, check);
      ghost var lines := ReadLines(content);
      CompliantExactly(check, guards, lines);
      BadLinesExactly(check, guards, lines);
      AllFixedExactly(check, guards, lines);
      FirstIsLeast(BadLines(check, guards, true, lines, 0));
      hide Compliant, BadLines, Fixed, IsRejected, ReadLines;
      if fix && !compliant {
        content := Write(fileLines);
      }
    }
  }
}
