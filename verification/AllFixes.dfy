/** The six line checks one after the other on one file, in the order of utils/check-style-clang-format.py.
    Each fix must not undo what an earlier one has achieved; one of them can, and a second run repairs it. */
module AllFixes {
  import opened Text
  import opened StyleCheck
  import opened LineChecks
  import opened LineFixes

  // ---------------------------------------------------------------------------------------------
  // A fix that keeps a file compliant with another check
  // ---------------------------------------------------------------------------------------------

  /** What a fix has to promise about one line for the sake of a check. */
  ghost predicate Keeps(fix: LineCheck, check: LineCheck, line: string) {
    var r := fix(line);
    !r.compliant && r.fixed != "" && check(line).compliant ==> check(r.fixed).compliant
  }

  ghost predicate KeepsLines(fix: LineCheck, check: LineCheck) {
    forall line :: IsLine(line) ==> Keeps(fix, check, line)
  }

  ghost predicate KeepsGuard(fix: LineCheck, line: string) {
    !fix(line).compliant ==> GuardOf(fix(line).fixed) == GuardOf(line)
  }

  ghost predicate KeepsGuards(fix: LineCheck) {
    forall line :: IsLine(line) ==> KeepsGuard(fix, line)
  }

  /** One line: the state of the check behind the fixed line is not on where it was off behind the line, and
      if the check looks at the fixed line, it has looked at the line. */
  lemma GuardStates(fix: LineCheck, guardsOfFix: bool, guards: bool, line: string, fe: bool, first: bool, second: bool)
    requires LawfulOn(fix, guardsOfFix, line) && (guardsOfFix || KeepsGuard(fix, line))
    requires (guardsOfFix && guards ==> fe == first) && (second ==> first)
    requires BadLine(fix, guardsOfFix, fe, line)
    ensures Next(guards, second, fix(line).fixed) ==> Next(guards, first, line)
    ensures Checked(guards, second, fix(line).fixed) ==> Checked(guards, first, line)
    ensures fix(line).fixed == "" && second ==> Next(guards, first, line)
  {
    EmptyIsNoGuard();
    hide GuardOf;
  }

  lemma DropFirst(lines: seq<string>)
    requires lines != []
    ensures lines[0] == "" ==> DropEmpty(lines) == DropEmpty(lines[1..])
    ensures lines[0] != "" ==>
              DropEmpty(lines) != [] && DropEmpty(lines)[0] == lines[0] && DropEmpty(lines)[1..] == DropEmpty(lines[1..])
  {
  }

  lemma {:induction false} KeepsCompliant(fix: LineCheck, guardsOfFix: bool, check: LineCheck, guards: bool,
                                          lines: seq<string>, fe: bool, first: bool, second: bool)
    requires Lawful(fix, guardsOfFix) && (guardsOfFix || KeepsGuards(fix)) && KeepsLines(fix, check)
    requires (guardsOfFix && guards ==> fe == first) && (second ==> first)
    requires AreLines(lines) && Compliant(check, guards, first, lines)
    ensures Compliant(check, guards, second, DropEmpty(Fixed(fix, guardsOfFix, fe, lines)))
    decreases |lines|
  {
    if lines != [] {
      TailOfLines(lines);
      var line := lines[0];
      var f := Fixed(fix, guardsOfFix, fe, lines);
      assert f[1..] == Fixed(fix, guardsOfFix, Next(guardsOfFix, fe, line), lines[1..]);
      assert LawfulOn(fix, guardsOfFix, line) && (guardsOfFix || KeepsGuard(fix, line)) && Keeps(fix, check, line);
      var bad := BadLine(fix, guardsOfFix, fe, line);
      if bad {
        GuardStates(fix, guardsOfFix, guards, line, fe, first, second);
      }
      var next := if f[0] == "" then second else Next(guards, second, f[0]);
      assert f[0] != "" ==> !BadLine(check, guards, second, f[0]);
      assert next ==> Next(guards, first, line);
      hide GuardOf, Next, Checked, BadLine, IsLine, LawfulOn, Keeps, KeepsGuard;
      DropFirst(f);
      KeepsCompliant(fix, guardsOfFix, check, guards, lines[1..], Next(guardsOfFix, fe, line), Next(guards, first, line), next);
    }
  }

  /** The same for a file. */
  lemma FixKeeps(fix: LineCheck, guardsOfFix: bool, check: LineCheck, guards: bool, content: string)
    requires Lawful(fix, guardsOfFix) && (guardsOfFix || KeepsGuards(fix)) && KeepsLines(fix, check)
    requires Compliant(check, guards, true, ReadLines(content))
    ensures Compliant(check, guards, true, ReadLines(AfterFix(fix, guardsOfFix, content)))
  {
    var lines := ReadLines(content);
    ReadThenWrite(content);
    if !Compliant(fix, guardsOfFix, true, lines) {
      var f := Fixed(fix, guardsOfFix, true, lines);
      FixedAreLines(fix, guardsOfFix, true, lines);
      WriteDropsEmpty(f);
      WriteThenRead(DropEmpty(f));
      KeepsCompliant(fix, guardsOfFix, check, guards, lines, true, true, true);
    }
  }

  // ---------------------------------------------------------------------------------------------
  // Deletions and tags
  // ---------------------------------------------------------------------------------------------

  lemma EmacsKeeps(check: LineCheck)
    ensures KeepsLines(CheckEmacs, check)
  {
  }

  lemma NoInclude(line: string)
    requires |line| < 2 || line[0] != '#' || line[1] != 'i'
    ensures CheckIncludeQuotes(line).compliant
  {
    assert INCLUDE_PREFIX[0] == '#' && INCLUDE_PREFIX[1] == 'i';
  }

  lemma DoxygenKeepsQuotes(isWord: char -> bool)
    requires IsWordClass(isWord)
    ensures KeepsLines(line => CheckDoxygenTags(isWord, line), CheckIncludeQuotes)
  {
    var fix := line => CheckDoxygenTags(isWord, line);
    forall line | IsLine(line) ensures Keeps(fix, CheckIncludeQuotes, line) {
      if !CheckDoxygenTags(isWord, line).compliant {
        FixedTagIsNoInclude(isWord, line);
      }
    }
  }

  lemma FixedTagIsNoInclude(isWord: char -> bool, line: string)
    requires IsWordClass(isWord) && !CheckDoxygenTags(isWord, line).compliant
    ensures CheckIncludeQuotes(CheckDoxygenTags(isWord, line).fixed).compliant
  {
    var a, marker, b, word, rest := FoundIsTagged(isWord, line);
    DoxygenFixKeepsRest(isWord, line, a, marker, b, word, rest);
    var fixed := CheckDoxygenTags(isWord, line).fixed;
    hide CheckDoxygenTags, CheckIncludeQuotes, Contains;
    TaggedStart(a, marker, b, "@" + word, fixed);
    NoInclude(fixed);
  }

  lemma TaggedStart(a: string, marker: string, b: string, tag: string, s: string)
    requires All(IsSpace, a) && (marker == "*" || marker == "/**" || marker == "///")
    requires a + marker + b + tag <= s
    ensures s != "" && s[0] != '#'
  {
    assert s[0] == (a + marker + b + tag)[0] == if a == "" then marker[0] else a[0];
  }

  // ---------------------------------------------------------------------------------------------
  // Licenses
  // ---------------------------------------------------------------------------------------------

  /** A line whose license text has been replaced. */
  lemma FixedLicense(line: string) returns (a: string, b: string)
    requires !CheckLicense(line).compliant && CheckLicense(line).fixed != ""
    ensures line == a + FIRST_GPL_LINE + b && CheckLicense(line).fixed == a + SPDX_LICENSE + b
    ensures IsPadding(a) && IsPadding(b)
  {
    a, b := ShowsLicenseText(line);
    LicenseFixKeepsMargins(line, a, LicenseText(line), b);
    MarginIsPadding(a);
    MarginIsPadding(b);
  }

  lemma LicenseKeepsQuotes()
    ensures KeepsLines(CheckLicense, CheckIncludeQuotes)
  {
    forall line | IsLine(line) ensures Keeps(CheckLicense, CheckIncludeQuotes, line) {
      if !CheckLicense(line).compliant && CheckLicense(line).fixed != "" {
        var a, b := FixedLicense(line);
        SpdxIsPlain();
        SpdxStart(a, SPDX_LICENSE, b);
        NoInclude(a + SPDX_LICENSE + b);
      }
    }
  }

  lemma SpdxStart(a: string, x: string, b: string)
    requires IsPadding(a) && |x| > 1 && x[0] == 'S'
    ensures (a + x + b)[0] != '#' || (a + x + b)[1] != 'i'
  {
    assert (a + x + b)[0] == if a == "" then 'S' else a[0];
    assert a != "" ==> (a + x + b)[1] == if |a| == 1 then 'S' else a[1];
  }

  lemma LicenseKeepsDoxygen(isWord: char -> bool)
    ensures KeepsLines(CheckLicense, line => CheckDoxygenTags(isWord, line))
  {
    var check := line => CheckDoxygenTags(isWord, line);
    forall line | IsLine(line) ensures Keeps(CheckLicense, check, line) {
      if !CheckLicense(line).compliant && CheckLicense(line).fixed != "" {
        FixedLicenseHasNoTag(isWord, line);
      }
    }
  }

  lemma FixedLicenseHasNoTag(isWord: char -> bool, line: string)
    requires !CheckLicense(line).compliant && CheckLicense(line).fixed != ""
    ensures CheckDoxygenTags(isWord, CheckLicense(line).fixed).compliant
  {
    var a, b := FixedLicense(line);
    SpdxHasNo();
    hide CheckLicense, CheckDoxygenTags;
    PaddedHasNo(a, SPDX_LICENSE, b, '\\');
    NoTagWithoutBackslash(isWord, a + SPDX_LICENSE + b);
  }

  lemma SpdxHasNo()
    ensures '\\' !in SPDX_LICENSE && '\t' !in SPDX_LICENSE
  {
    var x, y := "SPDX-License-", "Identifier: GPL-2.0-only";
    assert '\\' !in x && '\t' !in x && '\\' !in y && '\t' !in y;
  }

  lemma SpdxEndsInY()
    ensures SPDX_LICENSE != "" && forall i :: 0 <= i < |SPDX_LICENSE| - 1 ==> SPDX_LICENSE[i] != 'y'
  {
    var x, y := "SPDX-License-", "Identifier: GPL-2.0-onl";
    assert 'y' !in x && 'y' !in y;
    assert "Identifier: GPL-2.0-only" == y + "y";
    assert SPDX_LICENSE == x + (y + "y");
  }

  lemma PaddedHasNo(a: string, x: string, b: string, c: char)
    requires IsPadding(a) && IsPadding(b) && c !in x && !IsSpace(c) && !IsCommentMark(c)
    ensures c !in a + x + b
  {
  }

  lemma NoTagWithoutBackslash(isWord: char -> bool, line: string)
    requires '\\' !in line
    ensures CheckDoxygenTags(isWord, line).compliant
  {
    if DoxygenTag(isWord, line) != "" {
      var a, marker, b, word, rest := FoundIsTagged(isWord, line);
      TaggedParts(a, marker, b, word, rest);
    }
  }

  lemma LicenseKeepsEmacs()
    ensures KeepsLines(CheckLicense, CheckEmacs)
  {
    forall line | IsLine(line) ensures Keeps(CheckLicense, CheckEmacs, line) {
      if !CheckLicense(line).compliant && CheckLicense(line).fixed != "" {
        var a, b := FixedLicense(line);
        SpdxEndsInY();
        NoMarker(a, SPDX_LICENSE, b);
        EmacsFinds(a + SPDX_LICENSE + b);
      }
    }
  }

  lemma NoMarker(a: string, x: string, b: string)
    requires IsPadding(a) && IsPadding(b) && x != "" && forall k :: 0 <= k < |x| - 1 ==> x[k] != 'y'
    ensures !Occurs(a + x + b, "c-file-style:") && !Occurs(a + x + b, "py-indent-offset:")
  {
    var c, py := "c-file-style:", "py-indent-offset:";
    assert c[9] == 'y' && c[10] == 'l' && py[1] == 'y' && py[2] == '-';
    hide Occurs, IsPadding;
    NoTextWithY(a, x, b, c, 9);
    NoTextWithY(a, x, b, py, 1);
  }

  /** The only y of the line is followed by its margin. */
  lemma NoTextWithY(a: string, x: string, b: string, sub: string, i: nat)
    requires IsPadding(a) && IsPadding(b) && x != "" && forall k :: 0 <= k < |x| - 1 ==> x[k] != 'y'
    requires i + 1 < |sub| && sub[i] == 'y' && !IsSpace(sub[i + 1]) && !IsCommentMark(sub[i + 1])
    ensures !Occurs(a + x + b, sub)
  {
    var s := a + x + b;
    var next: nat := i + 1;
    OnlyY(a, x, b);
    forall k: nat ensures !OccursAt(s, sub, k) {
      if OccursAt(s, sub, k) {
        InOccurrence(s, sub, k, i);
        InOccurrence(s, sub, k, next);
      }
    }
  }

  lemma InOccurrence(s: string, sub: string, k: nat, i: nat)
    requires OccursAt(s, sub, k) && i < |sub|
    ensures k + i < |s| && s[k + i] == sub[i]
  {
  }

  lemma OnlyY(a: string, x: string, b: string)
    requires IsPadding(a) && IsPadding(b) && x != "" && forall k :: 0 <= k < |x| - 1 ==> x[k] != 'y'
    ensures var s := a + x + b;
            forall k :: 0 <= k < |s| - 1 && s[k] == 'y' ==> IsSpace(s[k + 1]) || IsCommentMark(s[k + 1])
  {
  }

  lemma LicenseKeepsWhitespace()
    ensures KeepsLines(CheckLicense, CheckWhitespace)
  {
    forall line | IsLine(line) ensures Keeps(CheckLicense, CheckWhitespace, line) {
      LicenseKeepsWhitespaceOn(line);
    }
  }

  lemma LicenseKeepsWhitespaceOn(line: string)
    ensures Keeps(CheckLicense, CheckWhitespace, line)
  {
    hide CheckWhitespace, CheckLicense, IsSpace, IsPadding;
    if !CheckLicense(line).compliant && CheckLicense(line).fixed != "" && CheckWhitespace(line).compliant {
      var a, b := FixedLicense(line);
      LicenseEnds();
      SameWhitespace(a, FIRST_GPL_LINE, b, SPDX_LICENSE);
    }
  }

  lemma LicenseEnds()
    ensures FIRST_GPL_LINE != "" && SPDX_LICENSE != ""
    ensures !IsSpace(FIRST_GPL_LINE[|FIRST_GPL_LINE| - 1]) && !IsSpace(SPDX_LICENSE[|SPDX_LICENSE| - 1])
  {
    SpdxIsPlain();
    FirstGplLine();
  }

  /** Behind any text that ends in no space, trailing whitespace is the same. */
  lemma SameWhitespace(a: string, x: string, b: string, y: string)
    requires x != "" && y != "" && !IsSpace(x[|x| - 1]) && !IsSpace(y[|y| - 1])
    requires CheckWhitespace(a + x + b).compliant
    ensures CheckWhitespace(a + y + b).compliant
  {
    WhitespaceFinds(a + x + b);
    WhitespaceFinds(a + y + b);
    hide CheckWhitespace;
    LastTwo(a + x, b);
    LastTwo(a + y, b);
    assert IsSpace('\n');
  }

  lemma LastTwo(a: string, b: string)
    requires a != ""
    ensures var s := a + b;
            && (Ended(s) <==> if b == "" then Ended(a) else Ended(b))
            && (|s| > 1 && b != "" ==> s[|s| - 2] == if |b| > 1 then b[|b| - 2] else a[|a| - 1])
            && (b == "" ==> s == a)
  {
    assert b == "" ==> a + b == a;
  }

  lemma LicenseKeepsTabs()
    ensures KeepsLines(CheckLicense, CheckTabs)
  {
    forall line | IsLine(line) ensures Keeps(CheckLicense, CheckTabs, line) {
      if !CheckLicense(line).compliant && CheckLicense(line).fixed != "" {
        var a, b := FixedLicense(line);
        SpdxHasNo();
        hide CheckLicense, IsPadding;
        NoCharacterAdded(a, FIRST_GPL_LINE, b, SPDX_LICENSE, '\t');
      }
    }
  }

  lemma NoCharacterAdded(a: string, x: string, b: string, y: string, c: char)
    requires c !in y
    ensures c !in a + x + b ==> c !in a + y + b
  {
    if c in a + y + b {
      assert c in a || c in b;
      assert c in a + x + b;
    }
  }

  // ---------------------------------------------------------------------------------------------
  // Trailing whitespace
  // ---------------------------------------------------------------------------------------------

  lemma WhitespaceKeepsGuards()
    ensures KeepsGuards(CheckWhitespace)
  {
    forall line | IsLine(line) ensures KeepsGuard(CheckWhitespace, line) {
      FixedWhitespace(line);
      SameGuard(line, CheckWhitespace(line).fixed);
    }
  }

  lemma WhitespaceKeepsQuotes()
    ensures KeepsLines(CheckWhitespace, CheckIncludeQuotes)
  {
    forall line | IsLine(line) ensures Keeps(CheckWhitespace, CheckIncludeQuotes, line) {
      IncludeWithoutEnd(RStrip(IsSpace, line), line);
    }
  }

  lemma IncludeWithoutEnd(r: string, line: string)
    requires r <= line
    ensures IsNs3Include(r + "\n") ==> IsNs3Include(line)
  {
    if IsNs3Include(r + "\n") {
      IncludeParts(r + "\n");
      var header, rest :| r + "\n" == INCLUDE_PREFIX + header + ".h>" + rest && '\n' !in header;
      var start := INCLUDE_PREFIX + header + ".h>";
      hide IsNs3Include;
      assert (r + "\n")[|start| - 1] == start[|start| - 1] == '>';
      SamePart(r, "\n", start, rest);
      PartsAreInclude(header, line[|start|..]);
      assert line == start + line[|start|..];
    }
  }

  lemma SamePart(a: string, b: string, x: string, y: string)
    requires a + b == x + y && |x| <= |a|
    ensures x <= a
  {
    assert (a + b)[..|x|] == a[..|x|] && (x + y)[..|x|] == x;
  }

  lemma WhitespaceKeepsDoxygen(isWord: char -> bool)
    ensures KeepsLines(CheckWhitespace, line => CheckDoxygenTags(isWord, line))
  {
    var check := line => CheckDoxygenTags(isWord, line);
    forall line | IsLine(line) ensures Keeps(CheckWhitespace, check, line) {
      FixedWhitespace(line);
      hide RStrip, TagAt, TagPosition;
    }
  }

  lemma WhitespaceKeepsLicense()
    ensures KeepsLines(CheckWhitespace, CheckLicense)
  {
    forall line | IsLine(line) ensures Keeps(CheckWhitespace, CheckLicense, line) {
      FixedWhitespace(line);
      SameLicense(line, RStrip(IsSpace, line) + "\n");
      hide RStrip, CheckLicense;
    }
  }

  lemma SameLicense(line: string, fixed: string)
    requires RStrip(IsSpace, line) == RStrip(IsSpace, fixed)
    ensures CheckLicense(line).compliant == CheckLicense(fixed).compliant
  {
    assert LicenseText(line) == LicenseText(fixed);
  }

  lemma WhitespaceKeepsEmacs()
    ensures KeepsLines(CheckWhitespace, CheckEmacs)
  {
    forall line | IsLine(line) ensures Keeps(CheckWhitespace, CheckEmacs, line) {
      FixedWhitespace(line);
      assert Strip(IsSpace, CheckWhitespace(line).fixed) == Strip(IsSpace, line);
    }
  }

  // ---------------------------------------------------------------------------------------------
  // Tabs: reading an expanded text back
  // ---------------------------------------------------------------------------------------------

  /** A text without blanks that starts the expanded text starts the text. */
  lemma {:induction false} PlainStart(s: string, col: nat, w: string) returns (next: nat)
    requires ' ' !in w && w <= ExpandTabs(s, col)
    ensures w <= s && ExpandTabs(s, col)[|w|..] == ExpandTabs(s[|w|..], next)
    ensures '\n' !in w && '\r' !in w ==> next == col + |w|
    decreases |w|
  {
    if w == "" {
      next := col;
    } else {
      var e, c := ExpandTabs(s, col), s[0];
      assert e[0] == w[0];
      assert Shown(c, col)[0] == e[0];
      assert c == w[0] && Shown(c, col) == [c];
      var rest := ExpandTabs(s[1..], NextColumn(c, col));
      assert e[1..] == rest;
      assert w[1..] <= rest;
      next := PlainStart(s[1..], NextColumn(c, col), w[1..]);
      assert e[|w|..] == rest[|w| - 1..];
      assert s[|w|..] == s[1..][|w| - 1..];
    }
  }

  /** Where no blank follows, the expanded text can be cut and its parts read back. */
  lemma {:induction false} CutAt(s: string, col: nat, x: string, tail: string) returns (i: nat, next: nat)
    requires ExpandTabs(s, col) == x + tail && (tail != "" ==> tail[0] != ' ')
    ensures i <= |s| && ExpandTabs(s[..i], col) == x && ExpandTabs(s[i..], next) == tail
    decreases |s|
  {
    if x == "" {
      i, next := 0, col;
      assert s[..0] == [] && s[0..] == s && x + tail == tail;
    } else {
      var c, rest := s[0], s[1..];
      ShownIsBlank(c, col);
      Peel(Shown(c, col), ExpandTabs(rest, NextColumn(c, col)), x, tail);
      i, next := CutAt(rest, NextColumn(c, col), x[|Shown(c, col)|..], tail);
      ExpandFirst(c, rest[..i], col);
      assert s[..i + 1] == [c] + rest[..i] && s[i + 1..] == rest[i..];
      i := i + 1;
    }
  }

  lemma Peel(a: string, b: string, x: string, tail: string)
    requires a + b == x + tail && a != "" && x != "" && (tail != "" ==> tail[0] != ' ')
    requires forall m :: 0 < m < |a| ==> a[m] == ' '
    ensures |a| <= |x| && x == a + x[|a|..] && b == x[|a|..] + tail
  {
    var e := a + b;
    assert tail != "" ==> e[|x|] == tail[0];
    assert e[..|a|] == a && e[|a|..] == b;
  }

  lemma ExpandFirst(c: char, s: string, col: nat)
    ensures ExpandTabs([c] + s, col) == Shown(c, col) + ExpandTabs(s, NextColumn(c, col))
  {
    assert ([c] + s)[1..] == s;
  }

  lemma ShownIsBlank(c: char, col: nat)
    ensures forall m :: 0 < m < |Shown(c, col)| ==> Shown(c, col)[m] == ' '
  {
  }

  lemma CutSpaces(s: string, col: nat, x: string, tail: string) returns (i: nat, next: nat)
    requires ExpandTabs(s, col) == x + tail && All(IsSpace, x) && tail != "" && tail[0] != ' '
    ensures i <= |s| && All(IsSpace, s[..i]) && ExpandTabs(s[i..], next) == tail
  {
    i, next := CutAt(s, col, x, tail);
    OnlySpaces(s[..i], col);
  }

  lemma CutPlain(s: string, col: nat, w: string, tail: string) returns (next: nat)
    requires ExpandTabs(s, col) == w + tail && ' ' !in w
    ensures w <= s && ExpandTabs(s[|w|..], next) == tail
    ensures '\n' !in w && '\r' !in w ==> next == col + |w|
  {
    assert (w + tail)[|w|..] == tail;
    next := PlainStart(s, col, w);
  }

  /** A single blank at a tab stop is no tab. */
  lemma CutBlank(s: string, col: nat, tail: string)
    requires ExpandTabs(s, col) == " " + tail && tail != "" && tail[0] != ' ' && col % TAB_SIZE == 0
    ensures s != "" && s[0] == ' ' && ExpandTabs(s[1..], col + 1) == tail
  {
    ShownIsBlank(s[0], col);
    assert (" " + tail)[0] == ' ' && (" " + tail)[1] == tail[0] && (" " + tail)[1..] == tail;
  }

  /** What is expanded is shown, or it is a tab. */
  lemma {:induction false} ExpandShows(s: string, col: nat, i: nat)
    requires i < |s| && s[i] != '\t'
    ensures s[i] in ExpandTabs(s, col)
  {
    if i > 0 {
      ExpandShows(s[1..], NextColumn(s[0], col), i - 1);
    }
  }

  lemma OnlySpaces(s: string, col: nat)
    requires All(IsSpace, ExpandTabs(s, col))
    ensures All(IsSpace, s)
  {
    forall i | 0 <= i < |s| ensures IsSpace(s[i]) {
      if s[i] != '\t' {
        ExpandShows(s, col, i);
      }
    }
  }

  lemma StartOfExpanded(s: string, col: nat)
    ensures ExpandTabs(s, col) == "" <==> s == ""
    ensures s != "" ==> ExpandTabs(s, col)[0] == if s[0] == '\t' then ' ' else s[0]
  {
  }

  // ---------------------------------------------------------------------------------------------
  // Tabs: the other checks
  // ---------------------------------------------------------------------------------------------

  lemma TabsKeepEmacs()
    ensures KeepsLines(CheckTabs, CheckEmacs)
  {
    forall line | IsLine(line) ensures Keeps(CheckTabs, CheckEmacs, line) {
      if !CheckTabs(line).compliant {
        EmacsFinds(line);
        EmacsFinds(ExpandTabs(line, 0));
        MarkersHaveNoBlank();
        hide CheckEmacs;
        ExpandBringsNoText(line, "c-file-style:");
        ExpandBringsNoText(line, "py-indent-offset:");
      }
    }
  }

  lemma MarkersHaveNoBlank()
    ensures ' ' !in "c-file-style:" && ' ' !in "py-indent-offset:"
  {
  }

  lemma ExpandBringsNoText(s: string, sub: string)
    requires sub != "" && ' ' !in sub
    ensures Occurs(ExpandTabs(s, 0), sub) ==> Occurs(s, sub)
  {
    if k: nat :| OccursAt(ExpandTabs(s, 0), sub, k) {
      ExpandBringsNoTextAt(s, sub, k);
    }
  }

  lemma ExpandBringsNoTextAt(s: string, sub: string, k: nat)
    requires sub != "" && ' ' !in sub && OccursAt(ExpandTabs(s, 0), sub, k)
    ensures Occurs(s, sub)
  {
    var e := ExpandTabs(s, 0);
    InOccurrence(e, sub, k, 0);
    assert e == e[..k] + e[k..];
    var i, col := CutAt(s, 0, e[..k], e[k..]);
    assert sub <= e[k..] by {
      assert forall m :: 0 <= m < |sub| ==> e[k..][m] == e[k + m];
    }
    var next := PlainStart(s[i..], col, sub);
    assert forall m :: 0 <= m < |sub| ==> s[i..][m] == s[i + m];
    assert OccursAt(s, sub, i);
  }

  lemma TabsKeepWhitespace()
    ensures KeepsLines(CheckTabs, CheckWhitespace)
  {
    forall line | IsLine(line) ensures Keeps(CheckTabs, CheckWhitespace, line) {
      if !CheckTabs(line).compliant && CheckWhitespace(line).compliant {
        ExpandedEnds(line);
      }
    }
  }

  lemma ExpandedEnds(line: string)
    requires IsLine(line) && '\t' in line && CheckWhitespace(line).compliant
    ensures CheckWhitespace(ExpandTabs(line, 0)).compliant
  {
    WhitespaceFinds(line);
    WhitespaceFinds(ExpandTabs(line, 0));
    hide CheckWhitespace;
    ExpandKeepsLine(line, 0);
    EndOfExpanded(line);
  }

  lemma EndOfExpanded(line: string)
    requires Ended(line) && |line| > 1 && !IsSpace(line[|line| - 2])
    ensures var fixed := ExpandTabs(line, 0);
            |fixed| > 1 && fixed[|fixed| - 2] == line[|line| - 2]
  {
    var n := |line| - 2;
    var a, b := line[..n], line[n..];
    assert line == a + b && b == [line[n]] + "\n";
    ExpandConcat(a, b, 0);
    ExpandPlain(line[n], "\n", Column(a, 0));
    assert "\n"[1..] == "";
    assert ExpandTabs("\n", Column(a, 0) + 1) == "\n";
  }

  lemma TabsKeepDoxygen(isWord: char -> bool)
    requires IsWordClass(isWord)
    ensures KeepsLines(CheckTabs, line => CheckDoxygenTags(isWord, line))
  {
    var check := line => CheckDoxygenTags(isWord, line);
    forall line | IsLine(line) ensures Keeps(CheckTabs, check, line) {
      var fixed := ExpandTabs(line, 0);
      hide DoxygenTag, ExpandTabs;
      if !CheckTabs(line).compliant && DoxygenTag(isWord, fixed) != "" {
        TagWasThere(isWord, line);
      }
    }
  }

  lemma TagWasThere(isWord: char -> bool, line: string)
    requires IsWordClass(isWord) && DoxygenTag(isWord, ExpandTabs(line, 0)) != ""
    ensures DoxygenTag(isWord, line) == DoxygenTag(isWord, ExpandTabs(line, 0))
  {
    var fixed := ExpandTabs(line, 0);
    var a, marker, b, word, rest := FoundIsTagged(isWord, fixed);
    TagWasThereIn(isWord, line, a, marker, b, word, rest);
  }

  lemma TagWasThereIn(isWord: char -> bool, line: string, a: string, marker: string, b: string, word: string, rest: string)
    requires IsWordClass(isWord) && Tagged(isWord, ExpandTabs(line, 0), a, marker, b, word, rest)
    ensures DoxygenTag(isWord, line) == "\\" + word
  {
    var tag := "\\" + word;
    WordHasNoBlank(isWord, word);
    MarkerHasNoBlank(marker);
    Nested(a, marker, b, tag, rest);
    hide DoxygenTag, ExpandTabs, IsWordClass;
    var i, c1 := CutSpaces(line, 0, a, marker + (b + (tag + rest)));
    var y := line[i..];
    var c2 := CutPlain(y, c1, marker, b + (tag + rest));
    var z := y[|marker|..];
    var j, c3 := CutSpaces(z, c2, b, tag + rest);
    var v := z[j..];
    var c4 := CutPlain(v, c3, tag, rest);
    var end := v[|tag|..];
    StartOfExpanded(end, c4);
    Reassembled(line, i, marker, j, tag);
    TaggedIsFound(isWord, line, line[..i], marker, z[..j], word, end);
  }

  lemma Nested(a: string, marker: string, b: string, tag: string, rest: string)
    ensures a + marker + b + tag + rest == a + (marker + (b + (tag + rest)))
  {
  }

  lemma Reassembled(line: string, i: nat, marker: string, j: nat, tag: string)
    requires i <= |line| && marker <= line[i..] && j <= |line[i..][|marker|..]|
    requires tag <= line[i..][|marker|..][j..]
    ensures line == line[..i] + marker + line[i..][|marker|..][..j] + tag + line[i..][|marker|..][j..][|tag|..]
  {
    var y := line[i..];
    var z := y[|marker|..];
    assert line == line[..i] + y && y == marker + z && z == z[..j] + z[j..] && z[j..] == tag + z[j..][|tag|..];
    Nested(line[..i], marker, z[..j], tag, z[j..][|tag|..]);
  }

  lemma WordHasNoBlank(isWord: char -> bool, word: string)
    requires IsWordClass(isWord) && All(isWord, word)
    ensures ' ' !in "\\" + word
  {
  }

  lemma MarkerHasNoBlank(marker: string)
    requires marker == "*" || marker == "/**" || marker == "///"
    ensures marker != "" && ' ' !in marker
  {
  }

  lemma TabsKeepQuotes()
    ensures KeepsLines(CheckTabs, CheckIncludeQuotes)
  {
    forall line | IsLine(line) ensures Keeps(CheckTabs, CheckIncludeQuotes, line) {
      var fixed := ExpandTabs(line, 0);
      if !CheckTabs(line).compliant && IsNs3Include(fixed) {
        IncludeWasThere(line);
      }
    }
  }

  lemma IncludeWasThere(line: string)
    requires IsNs3Include(ExpandTabs(line, 0))
    ensures IsNs3Include(line)
  {
    var fixed := ExpandTabs(line, 0);
    IncludeParts(fixed);
    var header, rest :| fixed == INCLUDE_PREFIX + header + ".h>" + rest && '\n' !in header;
    Regrouped(INCLUDE_PREFIX, header, ".h>", rest);
    IncludeWasThereIn(line, header, rest);
  }

  lemma Regrouped(p: string, x: string, y: string, z: string)
    ensures p + x + y + z == p + (x + (y + z))
  {
  }

  lemma IncludeWasThereIn(line: string, header: string, rest: string)
    requires ExpandTabs(line, 0) == INCLUDE_PREFIX + (header + (".h>" + rest)) && '\n' !in header
    ensures IsNs3Include(line)
  {
    var dot := ".h>";
    assert dot != "" && dot[0] != ' ' && ' ' !in dot;
    hide ExpandTabs, IsNs3Include;
    var y, c1 := PrefixWasThere(line, header + (dot + rest));
    var i, c2 := CutAt(y, c1, header, dot + rest);
    var c3 := CutPlain(y[i..], c2, dot, rest);
    NoLineEnd(y[..i], c1);
    var end := y[i..][|dot|..];
    PartsAreInclude(y[..i], end);
    hide INCLUDE_PREFIX;
    CutTwice(y, i, dot);
    Regrouped(INCLUDE_PREFIX, y[..i], dot, end);
  }

  lemma CutTwice(y: string, i: nat, dot: string)
    requires i <= |y| && dot <= y[i..]
    ensures y == y[..i] + (dot + y[i..][|dot|..])
  {
    assert y == y[..i] + y[i..] && y[i..] == dot + y[i..][|dot|..];
  }

  lemma NoLineEnd(s: string, col: nat)
    requires '\n' !in ExpandTabs(s, col)
    ensures '\n' !in s
  {
    forall i | 0 <= i < |s| ensures s[i] != '\n' {
      if s[i] != '\t' {
        ExpandShows(s, col, i);
      }
    }
  }

  /** The blank of the prefix stands at a tab stop, so no tab makes it. */
  lemma PrefixWasThere(line: string, tail: string) returns (y: string, col: nat)
    requires ExpandTabs(line, 0) == INCLUDE_PREFIX + tail
    ensures line == INCLUDE_PREFIX + y && ExpandTabs(y, col) == tail
  {
    var hash, open := "#include", "<ns3/";
    assert ' ' !in hash && ' ' !in open && '\n' !in hash && '\r' !in hash && |hash| == 8;
    assert INCLUDE_PREFIX == hash + " " + open;
    hide ExpandTabs, INCLUDE_PREFIX;
    Regrouped(hash, " ", open, tail);
    var next := CutPlain(line, 0, hash, " " + (open + tail));
    var y1 := line[|hash|..];
    CutBlank(y1, next, open + tail);
    col := CutPlain(y1[1..], next + 1, open, tail);
    y := y1[1..][|open|..];
    assert line == hash + y1 && y1 == " " + y1[1..] && y1[1..] == open + y;
    Regrouped(hash, " ", open, y);
  }

  // ---------------------------------------------------------------------------------------------
  // One run over all the checks
  // ---------------------------------------------------------------------------------------------

  const CHECKS := [Quotes, Doxygen, License, Emacs, Whitespace, Tabs]

  predicate RespectsGuards(c: Check) {
    c != Whitespace
  }

  ghost predicate Complies(isWord: char -> bool, c: Check, content: string) {
    Compliant(LineCheckOf(isWord, c), RespectsGuards(c), true, ReadLines(content))
  }

  ghost predicate AllComply(isWord: char -> bool, content: string) {
    forall c: Check :: Complies(isWord, c, content)
  }

  ghost function FixOne(isWord: char -> bool, c: Check, content: string): string {
    AfterFix(LineCheckOf(isWord, c), RespectsGuards(c), content)
  }

  /** The file after the first n fixes. */
  ghost function FixFirst(isWord: char -> bool, n: nat, content: string): string
    requires n <= |CHECKS|
  {
    if n == 0 then content else FixOne(isWord, CHECKS[n - 1], FixFirst(isWord, n - 1, content))
  }

  /** The file after a run in fix mode. */
  ghost function FixAll(isWord: char -> bool, content: string): string {
    FixFirst(isWord, |CHECKS|, content)
  }

  lemma FixStep(isWord: char -> bool, n: nat, content: string)
    requires n < |CHECKS|
    ensures FixFirst(isWord, 0, content) == content
    ensures FixFirst(isWord, n + 1, content) == FixOne(isWord, CHECKS[n], FixFirst(isWord, n, content))
  {
    hide FixOne;
  }

  lemma FixNothing(isWord: char -> bool, c: Check, content: string)
    requires Complies(isWord, c, content)
    ensures FixOne(isWord, c, content) == content
  {
  }

  lemma AllLawful(isWord: char -> bool, c: Check)
    requires IsWordClass(isWord)
    ensures Lawful(LineCheckOf(isWord, c), RespectsGuards(c))
  {
    match c {
      case Quotes => IncludeQuotesLawful();
      case Doxygen => DoxygenLawful(isWord);
      case License => LicenseLawful();
      case Emacs => EmacsLawful();
      case Whitespace => WhitespaceLawful();
      case Tabs => TabsLawful();
    }
    if c == Whitespace {
      LawfulAnyway(CheckWhitespace, false);
    }
  }

  /** The place of a check in the run. */
  function Place(c: Check): (i: nat)
    ensures i < |CHECKS| && CHECKS[i] == c
  {
    match c
    case Quotes => 0
    case Doxygen => 1
    case License => 2
    case Emacs => 3
    case Whitespace => 4
    case Tabs => 5
  }

  /** A later fix leaves a line that complies with an earlier check compliant, but for the tab fix and the
      license check; and the license fix leaves every line compliant. */
  lemma LaterFixKeepsLines(isWord: char -> bool, f: Check, c: Check)
    requires IsWordClass(isWord) && f != c && !(f == Tabs && c == License)
    requires Place(c) < Place(f) || f == License
    ensures KeepsLines(LineCheckOf(isWord, f), LineCheckOf(isWord, c))
  {
    match f {
      case Quotes =>
      case Doxygen => DoxygenKeepsQuotes(isWord);
      case License => LicenseKeepsAll(isWord, c);
      case Emacs => EmacsKeeps(LineCheckOf(isWord, c));
      case Whitespace => WhitespaceKeepsEarlier(isWord, c);
      case Tabs => TabsKeepEarlier(isWord, c);
    }
  }

  lemma LicenseKeepsAll(isWord: char -> bool, c: Check)
    requires c != License
    ensures KeepsLines(CheckLicense, LineCheckOf(isWord, c))
  {
    match c {
      case Quotes => LicenseKeepsQuotes();
      case Doxygen => LicenseKeepsDoxygen(isWord);
      case Emacs => LicenseKeepsEmacs();
      case Whitespace => LicenseKeepsWhitespace();
      case Tabs => LicenseKeepsTabs();
    }
  }

  lemma WhitespaceKeepsEarlier(isWord: char -> bool, c: Check)
    requires Place(c) < Place(Whitespace)
    ensures KeepsLines(CheckWhitespace, LineCheckOf(isWord, c))
  {
    match c {
      case Quotes => WhitespaceKeepsQuotes();
      case Doxygen => WhitespaceKeepsDoxygen(isWord);
      case License => WhitespaceKeepsLicense();
      case Emacs => WhitespaceKeepsEmacs();
    }
  }

  lemma TabsKeepEarlier(isWord: char -> bool, c: Check)
    requires IsWordClass(isWord) && Place(c) < Place(Tabs) && c != License
    ensures KeepsLines(CheckTabs, LineCheckOf(isWord, c))
  {
    match c {
      case Quotes => TabsKeepQuotes();
      case Doxygen => TabsKeepDoxygen(isWord);
      case Emacs => TabsKeepEmacs();
      case Whitespace => TabsKeepWhitespace();
    }
  }

  lemma LaterFixKeeps(isWord: char -> bool, f: Check, c: Check, content: string)
    requires IsWordClass(isWord) && f != c && !(f == Tabs && c == License)
    requires Place(c) < Place(f) || f == License
    requires Complies(isWord, c, content)
    ensures Complies(isWord, c, FixOne(isWord, f, content))
  {
    AllLawful(isWord, f);
    LaterFixKeepsLines(isWord, f, c);
    if f == Whitespace {
      WhitespaceKeepsGuards();
    }
    hide Compliant, Lawful, KeepsLines, KeepsGuards, AfterFix;
    FixKeeps(LineCheckOf(isWord, f), RespectsGuards(f), LineCheckOf(isWord, c), RespectsGuards(c), content);
  }

  lemma OwnFixComplies(isWord: char -> bool, c: Check, content: string)
    requires IsWordClass(isWord)
    ensures Complies(isWord, c, FixOne(isWord, c, content))
  {
    FixedFilesComply(isWord, c, RespectsGuards(c), content);
  }

  /** After n of the fixes the file complies with the first n checks, except that the tab fix may have spoilt
      the license check. */
  lemma {:induction false} FirstComply(isWord: char -> bool, n: nat, c: Check, content: string)
    requires IsWordClass(isWord) && n <= |CHECKS| && Place(c) < n && !(c == License && n == |CHECKS|)
    ensures Complies(isWord, c, FixFirst(isWord, n, content))
  {
    hide Complies, FixOne, FixFirst, IsWordClass;
    var before := FixFirst(isWord, n - 1, content);
    FixStep(isWord, n - 1, content);
    if c == CHECKS[n - 1] {
      OwnFixComplies(isWord, c, before);
    } else {
      FirstComply(isWord, n - 1, c, content);
      LaterFixKeeps(isWord, CHECKS[n - 1], c, before);
    }
  }

  // ---------------------------------------------------------------------------------------------
  // What the tab fix can spoil
  // ---------------------------------------------------------------------------------------------

  lemma {:induction false} NothingFixed(check: LineCheck, guards: bool, enabled: bool, lines: seq<string>)
    requires Compliant(check, guards, enabled, lines)
    ensures Fixed(check, guards, enabled, lines) == lines
    decreases |lines|
  {
    if lines != [] {
      NothingFixed(check, guards, Next(guards, enabled, lines[0]), lines[1..]);
      assert lines == [lines[0]] + lines[1..];
    }
  }

  lemma {:induction false} NothingDropped(lines: seq<string>)
    requires forall i :: 0 <= i < |lines| ==> lines[i] != ""
    ensures DropEmpty(lines) == lines
  {
    if lines != [] {
      NothingDropped(lines[1..]);
      assert lines == [lines[0]] + lines[1..];
    }
  }

  /** The tab fix works line by line and deletes none. */
  lemma TabFixLines(content: string)
    ensures ReadLines(AfterFix(CheckTabs, true, content)) == Fixed(CheckTabs, true, true, ReadLines(content))
  {
    var lines := ReadLines(content);
    var f := Fixed(CheckTabs, true, true, lines);
    ReadThenWrite(content);
    if Compliant(CheckTabs, true, true, lines) {
      NothingFixed(CheckTabs, true, true, lines);
    } else {
      TabsLawful();
      FixedAreLines(CheckTabs, true, true, lines);
      forall i | 0 <= i < |f| ensures f[i] != "" {
        FixedLine(CheckTabs, true, true, lines, i);
        StartOfExpanded(lines[i], 0);
      }
      NothingDropped(f);
      WriteThenRead(f);
    }
  }

  /** A new guard of the tab fix only ever switches the checks off. */
  lemma {:induction false} TabFixSwitchesOff(lines: seq<string>, i: nat)
    requires AreLines(lines) && i <= |lines|
    ensures EnabledBefore(true, true, Fixed(CheckTabs, true, true, lines), i) ==> EnabledBefore(true, true, lines, i)
  {
    hide Fixed, CheckTabs;
    if i > 0 {
      TabFixSwitchesOff(lines, i - 1);
      TabFixSwitchesOffNext(lines, i - 1);
    }
  }

  lemma TabFixSwitchesOffNext(lines: seq<string>, i: nat)
    requires AreLines(lines) && i < |lines|
    requires EnabledBefore(true, true, Fixed(CheckTabs, true, true, lines), i) ==> EnabledBefore(true, true, lines, i)
    ensures EnabledBefore(true, true, Fixed(CheckTabs, true, true, lines), i + 1) ==> EnabledBefore(true, true, lines, i + 1)
  {
    var after := Fixed(CheckTabs, true, true, lines);
    var first, second := EnabledBefore(true, true, lines, i), EnabledBefore(true, true, after, i);
    FixedLine(CheckTabs, true, true, lines, i);
    hide Fixed, CheckTabs, GuardOf;
    if BadLine(CheckTabs, true, first, lines[i]) {
      TabFixStep(lines[i], first, second);
    }
  }

  lemma TabFixStep(line: string, first: bool, second: bool)
    requires IsLine(line) && (second ==> first)
    requires BadLine(CheckTabs, true, first, line)
    ensures Next(true, second, CheckTabs(line).fixed) ==> Next(true, first, line)
  {
    TabsLawful();
    assert LawfulOn(CheckTabs, true, line);
    hide CheckTabs, GuardOf;
    GuardStates(CheckTabs, true, true, line, first, first, second);
  }

  /** Line i had a tab, and without it, it shows a line of the license text to a check that is still on. */
  ghost predicate TurnedIntoLicense(lines: seq<string>, i: nat)
    requires i < |lines|
  {
    && BadLine(CheckTabs, true, EnabledBefore(true, true, lines, i), lines[i])
    && EnabledBefore(true, true, Fixed(CheckTabs, true, true, lines), i)
    && LicenseText(ExpandTabs(lines[i], 0)) in GPL_LICENSE_LINES
  }

  lemma LicenseAfterTabs(lines: seq<string>, i: nat)
    requires AreLines(lines) && i < |lines|
    requires !BadLine(CheckLicense, true, EnabledBefore(true, true, lines, i), lines[i])
    ensures var after := Fixed(CheckTabs, true, true, lines);
            BadLine(CheckLicense, true, EnabledBefore(true, true, after, i), after[i]) <==> TurnedIntoLicense(lines, i)
  {
    var after := Fixed(CheckTabs, true, true, lines);
    FixedLine(CheckTabs, true, true, lines, i);
    TabFixSwitchesOff(lines, i);
    LicenseIsNoGuard(after[i]);
    hide GuardOf, LicenseText, ExpandTabs, EnabledBefore, Fixed;
  }

  lemma LicenseIsNoGuard(line: string)
    ensures LicenseText(line) in GPL_LICENSE_LINES ==> GuardOf(line) == NoGuard
  {
    GuardIsText(line);
    LicenseTextIsShort(line);
    GplLinesAreLong(LicenseText(line));
  }

  /** Exactly when the license check is spoilt. */
  lemma LicenseExactly(content: string)
    requires Compliant(CheckLicense, true, true, ReadLines(content))
    ensures Compliant(CheckLicense, true, true, ReadLines(AfterFix(CheckTabs, true, content)))
            <==> forall i :: 0 <= i < |ReadLines(content)| ==> !TurnedIntoLicense(ReadLines(content), i)
  {
    var lines := ReadLines(content);
    var after := Fixed(CheckTabs, true, true, lines);
    ReadThenWrite(content);
    TabFixLines(content);
    CompliantMeansNoBadLine(CheckLicense, true, true, lines, 0);
    CompliantMeansNoBadLine(CheckLicense, true, true, after, 0);
    forall i | 0 <= i < |lines|
      ensures BadLine(CheckLicense, true, EnabledBefore(true, true, after, i), after[i]) <==> TurnedIntoLicense(lines, i)
    {
      LicenseAfterTabs(lines, i);
    }
  }

  // ---------------------------------------------------------------------------------------------
  // Main results
  // ---------------------------------------------------------------------------------------------

  /** One run leaves a file that complies with every check, if and only if the tab fix, on the file that the
      five fixes before it leave, turns no line into a line of the license text. */
  lemma OneRunComplies(isWord: char -> bool, content: string)
    requires IsWordClass(isWord)
    ensures var lines := ReadLines(FixFirst(isWord, 5, content));
            AllComply(isWord, FixAll(isWord, content)) <==> forall i :: 0 <= i < |lines| ==> !TurnedIntoLicense(lines, i)
    ensures forall c: Check :: c != License ==> Complies(isWord, c, FixAll(isWord, content))
  {
    hide Complies, FixOne, FixFirst, IsWordClass, TurnedIntoLicense, ReadLines;
    forall c: Check | c != License ensures Complies(isWord, c, FixAll(isWord, content)) {
      FirstComply(isWord, 6, c, content);
    }
    FirstComply(isWord, 5, License, content);
    FixStep(isWord, 5, content);
    LicenseAfterTabFix(isWord, FixFirst(isWord, 5, content));
  }

  lemma LicenseAfterTabFix(isWord: char -> bool, content: string)
    requires Complies(isWord, License, content)
    ensures var lines := ReadLines(content);
            Complies(isWord, License, FixOne(isWord, Tabs, content)) <==> forall i :: 0 <= i < |lines| ==> !TurnedIntoLicense(lines, i)
  {
    hide Compliant, AfterFix, TurnedIntoLicense, ReadLines, CheckLicense, CheckTabs;
    LicenseExactly(content);
  }

  /** Fixes that find nothing change nothing. */
  lemma {:induction false} NothingToFix(isWord: char -> bool, m: nat, n: nat, content: string, fixed: string)
    requires m <= n <= |CHECKS| && FixFirst(isWord, m, content) == fixed
    requires forall i :: m <= i < n ==> Complies(isWord, CHECKS[i], fixed)
    ensures FixFirst(isWord, n, content) == fixed
    decreases n
  {
    hide Complies, FixOne, FixFirst;
    if m < n {
      NothingToFix(isWord, m, n - 1, content, fixed);
      FixStep(isWord, n - 1, content);
      FixNothing(isWord, CHECKS[n - 1], fixed);
    }
  }

  /** The license fix is the only one that has anything to do in the second run, and it spoils nothing. */
  lemma SecondRun(isWord: char -> bool, content: string)
    requires IsWordClass(isWord) && forall c: Check :: c != License ==> Complies(isWord, c, content)
    ensures FixAll(isWord, content) == FixOne(isWord, License, content)
    ensures AllComply(isWord, FixAll(isWord, content))
  {
    hide Complies, FixOne, FixFirst, IsWordClass;
    var fixed := FixOne(isWord, License, content);
    OwnFixComplies(isWord, License, content);
    forall c: Check ensures Complies(isWord, c, fixed) {
      if c != License {
        LaterFixKeeps(isWord, License, c, content);
      }
    }
    FixStep(isWord, Place(License), content);
    NothingToFix(isWord, 0, Place(License), content, content);
    NothingToFix(isWord, Place(License) + 1, |CHECKS|, content, fixed);
  }

  /** Two runs leave, on every file, a file that complies with every check, and a third changes nothing. */
  lemma TwoRunsComply(isWord: char -> bool, content: string)
    requires IsWordClass(isWord)
    ensures var twice := FixAll(isWord, FixAll(isWord, content));
            AllComply(isWord, twice) && FixAll(isWord, twice) == twice
  {
    hide Complies, FixFirst, IsWordClass, TurnedIntoLicense, ReadLines;
    OneRunComplies(isWord, content);
    SecondRun(isWord, FixAll(isWord, content));
    var twice := FixAll(isWord, FixAll(isWord, content));
    FixStep(isWord, 0, twice);
    NothingToFix(isWord, 0, |CHECKS|, twice, twice);
  }

  /** One run is enough if it leaves a file that complies, and only then: a second run is idle. */
  lemma SecondRunIsIdle(isWord: char -> bool, content: string)
    requires IsWordClass(isWord)
    ensures FixAll(isWord, FixAll(isWord, content)) == FixAll(isWord, content) <==> AllComply(isWord, FixAll(isWord, content))
  {
    hide Complies, FixFirst, IsWordClass;
    var once := FixAll(isWord, content);
    TwoRunsComply(isWord, content);
    if AllComply(isWord, once) {
      FixStep(isWord, 0, once);
      NothingToFix(isWord, 0, |CHECKS|, once, once);
    }
  }

  // ---------------------------------------------------------------------------------------------
  // The run, spelled out
  // ---------------------------------------------------------------------------------------------

  /** Every line, guarded or not, passes the whitespace check, and every line that guards do not exclude
      passes the other five. */
  ghost predicate LinesPass(isWord: char -> bool, lines: seq<string>) {
    forall i :: 0 <= i < |lines| ==> LinePasses(isWord, lines, i)
  }

  ghost predicate LinePasses(isWord: char -> bool, lines: seq<string>, i: nat)
    requires i < |lines|
  {
    && CheckWhitespace(lines[i]).compliant
    && (LooksAt(true, lines, i) ==>
          && CheckIncludeQuotes(lines[i]).compliant && CheckDoxygenTags(isWord, lines[i]).compliant
          && CheckLicense(lines[i]).compliant && CheckEmacs(lines[i]).compliant && CheckTabs(lines[i]).compliant)
  }

  /** Every line ends in a newline with no space before it. */
  ghost predicate NoSpacesAtEnds(lines: seq<string>) {
    forall i :: 0 <= i < |lines| ==> Ended(lines[i]) && (|lines[i]| == 1 || !IsSpace(lines[i][|lines[i]| - 2]))
  }

  /** Line i passes one check; the one for whitespace looks at every line. */
  ghost predicate PassesOne(isWord: char -> bool, c: Check, lines: seq<string>, i: nat)
    requires i < |lines|
  {
    c == Whitespace || LooksAt(true, lines, i) ==> LineCheckOf(isWord, c)(lines[i]).compliant
  }

  lemma PassesEach(isWord: char -> bool, lines: seq<string>, i: nat)
    requires i < |lines|
    ensures LinePasses(isWord, lines, i) <==> forall c: Check :: PassesOne(isWord, c, lines, i)
  {
    hide LooksAt, CheckIncludeQuotes, CheckDoxygenTags, CheckLicense, CheckEmacs, CheckWhitespace, CheckTabs;
    if forall c: Check :: PassesOne(isWord, c, lines, i) {
      assert PassesOne(isWord, Whitespace, lines, i) && PassesOne(isWord, Quotes, lines, i);
      assert PassesOne(isWord, Doxygen, lines, i) && PassesOne(isWord, License, lines, i);
      assert PassesOne(isWord, Emacs, lines, i) && PassesOne(isWord, Tabs, lines, i);
    }
    if LinePasses(isWord, lines, i) {
      forall c: Check ensures PassesOne(isWord, c, lines, i) {
        match c
        case _ =>
      }
    }
  }

  lemma RejectsOne(isWord: char -> bool, c: Check, lines: seq<string>, i: nat)
    requires i < |lines|
    ensures IsRejected(LineCheckOf(isWord, c), RespectsGuards(c), lines, i) <==> !PassesOne(isWord, c, lines, i)
  {
    hide LineCheckOf, OnAt, Switches;
  }

  /** What it takes for one check to be satisfied. */
  lemma CompliesExactly(isWord: char -> bool, c: Check, content: string)
    ensures var lines := ReadLines(content);
            Complies(isWord, c, content) <==> forall i :: 0 <= i < |lines| ==> PassesOne(isWord, c, lines, i)
  {
    var lines, check := ReadLines(content), LineCheckOf(isWord, c);
    CompliantExactly(check, RespectsGuards(c), lines);
    forall i | 0 <= i < |lines| ensures IsRejected(check, RespectsGuards(c), lines, i) <==> !PassesOne(isWord, c, lines, i) {
      RejectsOne(isWord, c, lines, i);
    }
    forall i: nat | i >= |lines| ensures !IsRejected(check, RespectsGuards(c), lines, i) {
    }
    hide LineCheckOf, Compliant, ReadLines, PassesOne, IsRejected;
  }

  lemma AllComplyExactly(isWord: char -> bool, content: string)
    ensures AllComply(isWord, content) <==> LinesPass(isWord, ReadLines(content))
  {
    hide Complies, ReadLines, LinePasses, PassesOne;
    var lines := ReadLines(content);
    if AllComply(isWord, content) {
      forall i | 0 <= i < |lines| ensures LinePasses(isWord, lines, i) {
        forall c: Check ensures PassesOne(isWord, c, lines, i) {
          CompliesExactly(isWord, c, content);
        }
        PassesEach(isWord, lines, i);
      }
    }
    if LinesPass(isWord, lines) {
      forall c: Check ensures Complies(isWord, c, content) {
        forall i | 0 <= i < |lines| ensures PassesOne(isWord, c, lines, i) {
          PassesEach(isWord, lines, i);
        }
        CompliesExactly(isWord, c, content);
      }
    }
  }

  /** After a run in fix mode no line ends in a space before its newline, guarded or not. */
  lemma FixedEnds(isWord: char -> bool, content: string)
    requires IsWordClass(isWord)
    ensures NoSpacesAtEnds(ReadLines(FixAll(isWord, content)))
  {
    OneRunComplies(isWord, content);
    WhitespaceEnds(isWord, FixAll(isWord, content));
  }

  lemma WhitespaceEnds(isWord: char -> bool, content: string)
    requires Complies(isWord, Whitespace, content)
    ensures NoSpacesAtEnds(ReadLines(content))
  {
    CompliesExactly(isWord, Whitespace, content);
    hide ReadLines, Complies;
    var lines := ReadLines(content);
    forall i | 0 <= i < |lines| ensures Ended(lines[i]) && (|lines[i]| == 1 || !IsSpace(lines[i][|lines[i]| - 2])) {
      assert PassesOne(isWord, Whitespace, lines, i);
      WhitespaceFinds(lines[i]);
    }
  }

  /** The six fixes in their order; only the one for whitespace ignores guards. */
  lemma FixAllIs(isWord: char -> bool, content: string)
    ensures var quotes := AfterFix(CheckIncludeQuotes, true, content);
            var doxygen := AfterFix(LineCheckOf(isWord, Doxygen), true, quotes);
            var license := AfterFix(CheckLicense, true, doxygen);
            var emacs := AfterFix(CheckEmacs, true, license);
            var whitespace := AfterFix(CheckWhitespace, false, emacs);
            FixAll(isWord, content) == AfterFix(CheckTabs, true, whitespace)
  {
    hide AfterFix, CheckIncludeQuotes, CheckLicense, CheckEmacs, CheckWhitespace, CheckTabs;
    FixStep(isWord, 0, content);
    FixStep(isWord, 1, content);
    FixStep(isWord, 2, content);
    FixStep(isWord, 3, content);
    FixStep(isWord, 4, content);
    FixStep(isWord, 5, content);
  }

  // ---------------------------------------------------------------------------------------------
  // A file for which one run is not enough
  // ---------------------------------------------------------------------------------------------

  const WORD := "published"
  const REST := "by the Free " + "Software Foundation;"

  /** A line of the license behind two stars, with a tab for its first blank. */
  const TABBED_LINE := "**" + (WORD + "\t" + REST) + "\n"

  lemma WordIsPlain()
    ensures '\n' !in WORD && '\r' !in WORD && '\t' !in WORD && '\\' !in WORD && '-' !in WORD
    ensures |WORD| == 9 && IsBareChar(WORD[0])
  {
    assert WORD[0] == 'p';
  }

  lemma RestIsPlain()
    ensures '\n' !in REST && '\t' !in REST && '\\' !in REST && '-' !in REST
    ensures |REST| == 32 && IsBareChar(REST[31])
  {
    FoundationIsPlain();
    assert '\n' !in "by the Free " && '\t' !in "by the Free " && '\\' !in "by the Free " && '-' !in "by the Free ";
    assert REST[31] == "Software Foundation;"[19];
  }

  lemma FoundationIsPlain()
    ensures var s := "Software Foundation;";
            '\n' !in s && '\t' !in s && '\\' !in s && '-' !in s && |s| == 20 && s[19] == ';'
  {
  }

  lemma ThirdLine()
    ensures GPL_LICENSE_LINES[2] == WORD + " " + REST
  {
    assert "published by the Free " == WORD + " " + "by the Free ";
  }

  /** The only check that finds anything in it is the one for tabs. */
  lemma TabbedLineComplies(isWord: char -> bool, c: Check)
    requires c != Tabs
    ensures LineCheckOf(isWord, c)(TABBED_LINE).compliant
  {
    TabbedLineIsPlain();
    match c {
      case Quotes => NoInclude(TABBED_LINE);
      case Doxygen => NoTagWithoutBackslash(isWord, TABBED_LINE);
      case License => TabbedLineIsNoLicense();
      case Emacs => NoDashNoMarker(TABBED_LINE);
      case Whitespace => WhitespaceFinds(TABBED_LINE);
    }
  }

  lemma TabbedLineIsPlain()
    ensures '\\' !in TABBED_LINE && '-' !in TABBED_LINE && IsLine(TABBED_LINE) && Ended(TABBED_LINE)
    ensures |TABBED_LINE| == 45 && TABBED_LINE[0] == '*' && TABBED_LINE[11] == '\t' && !IsSpace(TABBED_LINE[43])
  {
    WordIsPlain();
    RestIsPlain();
    assert TABBED_LINE[43] == REST[31];
  }

  lemma NoDashNoMarker(line: string)
    requires '-' !in line
    ensures CheckEmacs(line).compliant
  {
    EmacsFinds(line);
    assert "c-file-style:"[1] == '-' && "py-indent-offset:"[2] == '-';
    NoDash(line, "c-file-style:", 1);
    NoDash(line, "py-indent-offset:", 2);
  }

  lemma NoDash(line: string, sub: string, i: nat)
    requires '-' !in line && i < |sub| && sub[i] == '-'
    ensures !Occurs(line, sub)
  {
    forall k: nat ensures !OccursAt(line, sub, k) {
      if OccursAt(line, sub, k) {
        InOccurrence(line, sub, k, i);
      }
    }
  }

  lemma GplLineLengths(i: nat)
    requires i < |GPL_LICENSE_LINES|
    ensures |GPL_LICENSE_LINES[i]| == 42 ==> i == 2
  {
    assert |GPL_LICENSE_LINES[i]| == [68, 65, 42, 63, 62, 61, 44, 65, 59, 73][i];
  }

  /** Between stars and line end there may be any text of the license's kind. */
  lemma StarredText(text: string)
    requires IsBare(text)
    ensures LicenseText("**" + text + "\n") == text
  {
    assert Around("**", "", "**", "") && Around("\n", "\n", "", "");
    MarginsAreStripped("**" + text + "\n", "**", text, "\n");
  }

  lemma TabbedLineIsNoLicense()
    ensures CheckLicense(TABBED_LINE).compliant
  {
    WordIsPlain();
    RestIsPlain();
    var text := WORD + "\t" + REST;
    assert text[0] == WORD[0] && text[|text| - 1] == REST[31] && text[9] == '\t';
    hide WORD, REST;
    StarredText(text);
    NotTheThirdLine(text);
  }

  lemma NotTheThirdLine(text: string)
    requires |text| == 42 && text[9] == '\t'
    ensures text !in GPL_LICENSE_LINES
  {
    assert GPL_LICENSE_LINES[2][9] == ' ';
    if i :| 0 <= i < |GPL_LICENSE_LINES| && GPL_LICENSE_LINES[i] == text {
      GplLineLengths(i);
    }
  }

  /** A tab before a tab stop becomes a single blank. */
  lemma ExpandOneTab(start: string, tail: string)
    requires '\t' !in start && '\n' !in start && '\r' !in start && |start| % TAB_SIZE == 3 && '\t' !in tail
    ensures ExpandTabs(start + ("\t" + tail), 0) == start + (" " + tail)
  {
    hide ExpandTabs, Column;
    ExpandConcat(start, "\t" + tail, 0);
    ExpandLeavesNoTab(start, 0);
    PlainColumns(start, 0);
    ExpandTab(tail, |start|);
    ExpandLeavesNoTab(tail, |start| + 1);
  }

  lemma Framed(a: string, x: string, m: string, y: string, b: string)
    ensures a + (x + m + y) + b == (a + x) + (m + (y + b))
  {
  }

  /** What the tab fix makes of it. */
  lemma TabbedLineExpanded()
    ensures ExpandTabs(TABBED_LINE, 0) == "**" + GPL_LICENSE_LINES[2] + "\n"
  {
    WordIsPlain();
    RestIsPlain();
    ThirdLine();
    hide WORD, REST;
    ExpandOneTab("**" + WORD, REST + "\n");
    Framed("**", WORD, "\t", REST, "\n");
    Framed("**", WORD, " ", REST, "\n");
  }

  lemma OneLineComplies(check: LineCheck, guards: bool, line: string)
    requires check(line).compliant
    ensures Compliant(check, guards, true, [line])
  {
    assert [line][1..] == [];
  }

  lemma OneLineFile(line: string)
    requires IsLine(line)
    ensures ReadLines(line) == [line]
  {
    assert [line][1..] == [] && Write([line]) == line;
    WriteThenRead([line]);
  }

  lemma TabbedFileComplies(isWord: char -> bool, c: Check)
    requires c != Tabs
    ensures Complies(isWord, c, TABBED_LINE)
  {
    TabbedLineIsPlain();
    TabbedLineComplies(isWord, c);
    hide LineCheckOf, Compliant, TABBED_LINE;
    OneLineFile(TABBED_LINE);
    OneLineComplies(LineCheckOf(isWord, c), RespectsGuards(c), TABBED_LINE);
  }

  lemma TabbedFileBefore(isWord: char -> bool)
    ensures ReadLines(TABBED_LINE) == [TABBED_LINE] && FixFirst(isWord, 5, TABBED_LINE) == TABBED_LINE
  {
    hide Complies, FixOne, FixFirst, TABBED_LINE;
    TabbedLineIsPlain();
    OneLineFile(TABBED_LINE);
    forall c: Check | c != Tabs ensures Complies(isWord, c, TABBED_LINE) {
      TabbedFileComplies(isWord, c);
    }
    FixStep(isWord, 0, TABBED_LINE);
    NothingToFix(isWord, 0, 5, TABBED_LINE, TABBED_LINE);
  }

  lemma TabbedLineTurns()
    ensures TurnedIntoLicense([TABBED_LINE], 0)
  {
    TabbedLineIsPlain();
    TabbedLineExpanded();
    GplLineIsBare(2);
    StarredText(GPL_LICENSE_LINES[2]);
    assert !CheckTabs(TABBED_LINE).compliant;
    hide ExpandTabs, LicenseText, GuardOf, CheckTabs, TABBED_LINE, REST, WORD;
    assert GPL_LICENSE_LINES[2] in GPL_LICENSE_LINES;
  }

  /** One run in fix mode, which reports success, leaves a file that the license check rejects. */
  lemma OneRunIsNotEnough(isWord: char -> bool)
    requires IsWordClass(isWord)
    ensures !AllComply(isWord, FixAll(isWord, TABBED_LINE))
  {
    TabbedFileBefore(isWord);
    TabbedLineTurns();
    hide TurnedIntoLicense, AllComply, FixAll, FixFirst, ReadLines;
    OneRunComplies(isWord, TABBED_LINE);
  }

  // ---------------------------------------------------------------------------------------------
  // The program
  // ---------------------------------------------------------------------------------------------

  /** `check_style_files` for one file: successful if it complies or is fixed. */
  method CheckFile(file: SourceFile, c: Check, fix: bool, verbose: bool, isWord: char -> bool) returns (successful: bool)
    modifies file
    ensures file.content == if fix then FixOne(isWord, c, old(file.content)) else old(file.content)
    ensures successful <==> fix || Complies(isWord, c, old(file.content))
  {
    var compliant, infos := file.CheckManually(fix, verbose, RespectsGuards(c), LineCheckOf(isWord, c));
    successful := compliant || fix;
  }

  /** `check_style_clang_format` for one file that all six checks apply to.  A run in fix mode always reports
      success. */
  method CheckStyle(file: SourceFile, fix: bool, verbose: bool, isWord: char -> bool) returns (successful: bool)
    modifies file
    ensures file.content == if fix then FixAll(isWord, old(file.content)) else old(file.content)
    ensures successful <==> fix || AllComply(isWord, old(file.content))
    ensures successful <==> fix || LinesPass(isWord, ReadLines(old(file.content)))
    ensures fix && IsWordClass(isWord) ==> NoSpacesAtEnds(ReadLines(file.content))
  {
    AllComplyExactly(isWord, file.content);
    if IsWordClass(isWord) {
      FixedEnds(isWord, file.content);
    }
    hide LinesPass, NoSpacesAtEnds, IsWordClass, ReadLines, FixAll, AllComply;
    successful := RunChecks(file, fix, verbose, isWord);
  }

  /** The loop over the checks. */
  method RunChecks(file: SourceFile, fix: bool, verbose: bool, isWord: char -> bool) returns (successful: bool)
    modifies file
    ensures file.content == if fix then FixAll(isWord, old(file.content)) else old(file.content)
    ensures successful <==> fix || AllComply(isWord, old(file.content))
  {
    hide Complies, FixOne, FixFirst;
    FixStep(isWord, 0, old(file.content));
    successful := true;
    for i := 0 to |CHECKS|
      invariant file.content == if fix then FixFirst(isWord, i, old(file.content)) else old(file.content)
      invariant successful <==> fix || forall j :: 0 <= j < i ==> Complies(isWord, CHECKS[j], old(file.content))
    {
      FixStep(isWord, i, old(file.content));
      var ok := CheckFile(file, CHECKS[i], fix, verbose, isWord);
      successful := successful && ok;
    }
    ChecksAreAll(isWord, old(file.content));
  }

  lemma ChecksAreAll(isWord: char -> bool, content: string)
    ensures AllComply(isWord, content) <==> forall j :: 0 <= j < |CHECKS| ==> Complies(isWord, CHECKS[j], content)
  {
    if forall j :: 0 <= j < |CHECKS| ==> Complies(isWord, CHECKS[j], content) {
      forall c: Check ensures Complies(isWord, c, content) {
        assert CHECKS[Place(c)] == c;
      }
    }
  }
}
