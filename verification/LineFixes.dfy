/** What the line checkers of utils/check-style-clang-format.py find and what their fixes keep, said without
    their algorithms: which lines do not comply, exactly, and what becomes of the rest of such a line. */
module LineFixes {
  import opened Text
  import opened StyleCheck
  import opened LineChecks

  // ---------------------------------------------------------------------------------------------
  // Trailing whitespace
  // ---------------------------------------------------------------------------------------------

  /** Lines comply that end in a newline with no space before it. */
  lemma WhitespaceFinds(line: string)
    ensures CheckWhitespace(line).compliant <==> Ended(line) && (|line| == 1 || !IsSpace(line[|line| - 2]))
  {
    var r := RStrip(IsSpace, line);
    if Ended(line) {
      var front := line[..|line| - 1];
      assert line == front + "\n";
      assert |r| < |line|;
      assert r + "\n" == line ==> r == front;
    }
  }

  /** The fix removes spaces at the end and nothing else. */
  lemma WhitespaceFixKeepsText(line: string)
    ensures var fixed := CheckWhitespace(line).fixed;
            && Ended(fixed) && CheckWhitespace(fixed).compliant
            && fixed[..|fixed| - 1] <= line && All(IsSpace, line[|fixed| - 1..])
  {
    var r := RStrip(IsSpace, line);
    var fixed := r + "\n";
    assert fixed[..|fixed| - 1] == r;
    WhitespaceFinds(fixed);
  }

  // ---------------------------------------------------------------------------------------------
  // Tabs
  // ---------------------------------------------------------------------------------------------

  /** A text without tabs and line ends takes one column a character. */
  lemma {:induction false} PlainColumns(s: string, col: nat)
    requires '\t' !in s && '\n' !in s && '\r' !in s
    ensures Column(s, col) == col + |s|
  {
    if s != [] {
      PlainColumns(s[1..], col + 1);
    }
  }

  lemma {:induction false} ExpandedLength(s: string, col: nat)
    requires '\n' !in s && '\r' !in s
    ensures Column(s, col) == col + |ExpandTabs(s, col)|
  {
    if s != [] {
      ExpandedLength(s[1..], NextColumn(s[0], col));
    }
  }

  /** Every character of a fixed line but the tabs is shown in the column in which it was. */
  lemma TabFixKeepsColumns(line: string, i: nat)
    requires IsLine(line) && '\r' !in line && i < |line| && line[i] != '\t'
    ensures var fixed, column := CheckTabs(line).fixed, Column(line[..i], 0);
            column < |fixed| && fixed[column] == line[i] && Column(fixed[..column], 0) == column
  {
    var a, b := line[..i], line[i + 1..];
    assert line == a + ([line[i]] + b);
    ExpandLeavesNoTab(line, 0);
    ExpandConcat(a, [line[i]] + b, 0);
    ExpandedLength(a, 0);
    assert ([line[i]] + b)[1..] == b;
    var fixed := ExpandTabs(line, 0);
    assert fixed[..|ExpandTabs(a, 0)|] == ExpandTabs(a, 0);
    ExpandLeavesNoTab(a, 0);
    ExpandBringsNoLineEnd(a, 0);
    PlainColumns(ExpandTabs(a, 0), 0);
  }

  lemma {:induction false} ExpandBringsNoLineEnd(s: string, col: nat)
    requires '\n' !in s && '\r' !in s
    ensures '\n' !in ExpandTabs(s, col) && '\r' !in ExpandTabs(s, col)
  {
    if s != [] {
      ExpandBringsNoLineEnd(s[1..], NextColumn(s[0], col));
    }
  }

  /** What a fixed line shows in a column is a blank or what the line showed there. */
  lemma {:induction false} TabFixBringsBlanksOnly(s: string, col: nat, k: nat)
    requires '\n' !in s && '\r' !in s && k < |ExpandTabs(s, col)|
    ensures ExpandTabs(s, col)[k] == ' '
            || exists i :: 0 <= i < |s| && Column(s[..i], col) == col + k && s[i] == ExpandTabs(s, col)[k]
  {
    var next := NextColumn(s[0], col);
    if k < next - col {
      assert s[0] != '\t' ==> Column(s[..0], col) == col + k && s[0] == ExpandTabs(s, col)[k];
    } else {
      var j := k - (next - col);
      assert ExpandTabs(s, col)[k] == ExpandTabs(s[1..], next)[j];
      TabFixBringsBlanksOnly(s[1..], next, j);
      if ExpandTabs(s[1..], next)[j] != ' ' {
        var i :| 0 <= i < |s[1..]| && Column(s[1..][..i], next) == next + j && s[1..][i] == ExpandTabs(s[1..], next)[j];
        assert s[..i + 1][1..] == s[1..][..i];
        assert Column(s[..i + 1], col) == col + k && s[i + 1] == ExpandTabs(s, col)[k];
      }
    }
  }

  // ---------------------------------------------------------------------------------------------
  // Emacs file style comments
  // ---------------------------------------------------------------------------------------------

  ghost predicate OccursAt(s: string, sub: string, i: nat) {
    i + |sub| <= |s| && forall k :: 0 <= k < |sub| ==> s[i + k] == sub[k]
  }

  ghost predicate Occurs(s: string, sub: string) {
    exists i: nat :: OccursAt(s, sub, i)
  }

  /** The same place, counted from the start of a part of the text. */
  lemma OccursInPart(a: string, x: string, b: string, sub: string, i: nat)
    requires |a| <= i && i + |sub| <= |a| + |x|
    ensures OccursAt(a + x + b, sub, i) <==> OccursAt(x, sub, i - |a|)
  {
    var s := a + x + b;
    forall k | 0 <= k < |sub| ensures s[i + k] == sub[k] <==> x[i - |a| + k] == sub[k] {
    }
  }

  lemma {:induction false} ContainsMeansOccurs(s: string, sub: string)
    ensures Contains(s, sub) <==> Occurs(s, sub)
  {
    if sub <= s {
      assert OccursAt(s, sub, 0);
    } else if s != [] {
      var x := s[1..];
      assert s == s[..1] + x + [];
      ContainsMeansOccurs(x, sub);
      if i: nat :| OccursAt(x, sub, i) {
        OccursInPart(s[..1], x, [], sub, i + 1);
        assert OccursAt(s, sub, i + 1);
      }
      if i: nat :| OccursAt(s, sub, i) {
        PrefixOccurs(s, sub);
        OccursInPart(s[..1], x, [], sub, i);
        assert OccursAt(x, sub, i - 1);
      }
    } else {
      assert forall i: nat :: !OccursAt(s, sub, i);
    }
  }

  lemma PrefixOccurs(s: string, sub: string)
    ensures OccursAt(s, sub, 0) ==> sub <= s
  {
    if OccursAt(s, sub, 0) {
      assert forall k :: 0 <= k < |sub| ==> s[0 + k] == sub[k];
    }
  }

  /** A text that starts and ends with no space is not cut by stripping. */
  lemma StrippingKeepsOccurrences(s: string, sub: string)
    requires sub != [] && !IsSpace(sub[0]) && !IsSpace(sub[|sub| - 1])
    ensures Occurs(Strip(IsSpace, s), sub) <==> Occurs(s, sub)
  {
    var a, b := StripSplits(IsSpace, s);
    var x := Strip(IsSpace, s);
    if i: nat :| OccursAt(s, sub, i) {
      OccurrenceIsInside(a, x, b, sub, i);
      OccursInPart(a, x, b, sub, i);
      assert OccursAt(x, sub, i - |a|);
    }
    if i: nat :| OccursAt(x, sub, i) {
      OccursInPart(a, x, b, sub, |a| + i);
      assert OccursAt(s, sub, |a| + i);
    }
  }

  lemma OccurrenceIsInside(a: string, x: string, b: string, sub: string, i: nat)
    requires sub != [] && !IsSpace(sub[0]) && !IsSpace(sub[|sub| - 1])
    requires All(IsSpace, a) && All(IsSpace, b) && OccursAt(a + x + b, sub, i)
    ensures |a| <= i && i + |sub| <= |a| + |x|
  {
    var s := a + x + b;
    MarginIsSpace(a, x, b);
    assert s[i + 0] == sub[0] && s[i + (|sub| - 1)] == sub[|sub| - 1];
  }

  lemma MarginIsSpace(a: string, x: string, b: string)
    requires All(IsSpace, a) && All(IsSpace, b)
    ensures var s := a + x + b;
            forall k :: 0 <= k < |s| && !IsSpace(s[k]) ==> |a| <= k < |a| + |x|
  {
  }

  /** Exactly the lines in which one of the two markers occurs are deleted. */
  lemma EmacsFinds(line: string)
    ensures !CheckEmacs(line).compliant <==> Occurs(line, "c-file-style:") || Occurs(line, "py-indent-offset:")
    ensures !CheckEmacs(line).compliant ==> CheckEmacs(line).fixed == ""
  {
    var c, py := "c-file-style:", "py-indent-offset:";
    assert |c| == 13 && c[0] == 'c' && c[12] == ':' && |py| == 17 && py[0] == 'p' && py[16] == ':';
    StrippingKeepsOccurrences(line, c);
    StrippingKeepsOccurrences(line, py);
    ContainsMeansOccurs(Strip(IsSpace, line), c);
    ContainsMeansOccurs(Strip(IsSpace, line), py);
  }

  // ---------------------------------------------------------------------------------------------
  // Include quotes
  // ---------------------------------------------------------------------------------------------

  /** Lines of the form `#include <ns3/` header `.h>` rest do not comply. */
  lemma QuotesFinds(line: string)
    ensures !CheckIncludeQuotes(line).compliant
            <==> exists header, rest :: line == "#include <ns3/" + header + ".h>" + rest && '\n' !in header
  {
    if IsNs3Include(line) {
      IncludeParts(line);
    }
    forall header, rest | line == INCLUDE_PREFIX + header + ".h>" + rest && '\n' !in header ensures IsNs3Include(line) {
      PartsAreInclude(header, rest);
    }
  }

  lemma IncludeParts(line: string)
    requires IsNs3Include(line)
    ensures exists header, rest :: line == INCLUDE_PREFIX + header + ".h>" + rest && '\n' !in header
  {
    var n := |INCLUDE_PREFIX|;
    var j :| n <= j <= |line| - 3 && line[j..j + 3] == ".h>" && '\n' !in line[n..j];
    assert line[..n] == INCLUDE_PREFIX;
    assert line == line[..n] + line[n..j] + line[j..j + 3] + line[j + 3..];
  }

  lemma PartsAreInclude(header: string, rest: string)
    requires '\n' !in header
    ensures IsNs3Include(INCLUDE_PREFIX + header + ".h>" + rest)
  {
    var line := INCLUDE_PREFIX + header + ".h>" + rest;
    var j := |INCLUDE_PREFIX| + |header|;
    Slice(INCLUDE_PREFIX, header, ".h>" + rest);
    Slice(INCLUDE_PREFIX + header, ".h>", rest);
    assert line == INCLUDE_PREFIX + header + (".h>" + rest);
    assert line[j..j + 3] == ".h>";
  }

  lemma Slice(a: string, x: string, b: string)
    ensures (a + x + b)[|a|..|a| + |x|] == x
  {
  }

  lemma {:induction false} ReplaceOneCharacter(s: string, c: char, d: char)
    ensures |Replace(s, [c], [d])| == |s|
    ensures forall i :: 0 <= i < |s| ==> Replace(s, [c], [d])[i] == if s[i] == c then d else s[i]
  {
    if s != [] {
      assert s[..1] == [s[0]];
      ReplaceOneCharacter(s[1..], c, d);
    }
  }

  /** The fix puts quotes in the place of the angle brackets. */
  lemma QuotesFixKeepsRest(line: string)
    requires !CheckIncludeQuotes(line).compliant
    ensures var fixed := CheckIncludeQuotes(line).fixed;
            && |fixed| == |line|
            && forall i :: 0 <= i < |line| ==> fixed[i] == if line[i] == '<' || line[i] == '>' then '"' else line[i]
  {
    ReplaceOneCharacter(line, '<', '"');
    ReplaceOneCharacter(Replace(line, "<", "\""), '>', '"');
  }

  // ---------------------------------------------------------------------------------------------
  // Licenses
  // ---------------------------------------------------------------------------------------------

  /** Spaces, comment marks and spaces again. */
  ghost predicate Around(a: string, x: string, y: string, z: string) {
    a == x + y + z && All(IsSpace, x) && All(IsCommentMark, y) && All(IsSpace, z)
  }

  ghost predicate IsMargin(a: string) {
    exists x, y, z :: Around(a, x, y, z)
  }

  /** A margin without comment marks can be taken as one run of spaces, on the outside. */
  lemma LeftMargin(a: string) returns (x: string, y: string, z: string)
    requires IsMargin(a)
    ensures Around(a, x, y, z) && (y == [] ==> z == [])
  {
    x, y, z :| Around(a, x, y, z);
    if y == [] {
      x, z := x + z, [];
    }
  }

  lemma RightMargin(b: string) returns (x: string, y: string, z: string)
    requires IsMargin(b)
    ensures Around(b, x, y, z) && (y == [] ==> x == [])
  {
    x, y, z :| Around(b, x, y, z);
    if y == [] {
      x, z := [], x + z;
    }
  }

  predicate IsBare(text: string) {
    && text != [] && !IsSpace(text[0]) && !IsSpace(text[|text| - 1])
    && !IsCommentMark(text[0]) && !IsCommentMark(text[|text| - 1])
  }

  ghost predicate Shows(line: string, a: string, text: string, b: string) {
    line == a + text + b && IsMargin(a) && IsMargin(b)
  }

  /** Stripping stops at the first and the last character that are not in p. */
  lemma StripLayer(p: char -> bool, x: string, y: string, core: string, y': string, x': string)
    requires All(p, x) && All(p, x') && core != ""
    requires !p(if y == "" then core[0] else y[0])
    requires !p(if y' == "" then core[|core| - 1] else y'[|y'| - 1])
    ensures Strip(p, x + (y + core + y') + x') == y + core + y'
  {
    StripPadded(p, x, y + core + y', x');
  }

  lemma MarginsAreStripped(line: string, a: string, text: string, b: string)
    requires Shows(line, a, text, b) && IsBare(text)
    ensures LicenseText(line) == text
  {
    var x, y, z := LeftMargin(a);
    var z', y', x' := RightMargin(b);
    NestTwice(x, y, z, text, z', y', x');
    hide Strip, IsMargin;
    StripLayer(IsSpace, x, y, z + text + z', y', x');
    StripLayer(IsCommentMark, y, z, text, z', y');
    StripPadded(IsSpace, z, text, z');
  }

  /** A line shows its license text. */
  lemma ShowsLicenseText(line: string) returns (a: string, b: string)
    ensures Shows(line, a, LicenseText(line), b)
  {
    var middle := Strip(IsSpace, line);
    var inner := Strip(IsCommentMark, middle);
    var text := Strip(IsSpace, inner);
    var x, x' := StripSplits(IsSpace, line);
    var y, y' := StripSplits(IsCommentMark, middle);
    var z, z' := StripSplits(IsSpace, inner);
    a, b := x + y + z, z' + y' + x';
    hide Strip, All;
    assert Around(a, x, y, z) && Around(b, z', y', x');
    NestTwice(x, y, z, text, z', y', x');
  }

  lemma NestTwice(x: string, y: string, z: string, text: string, z': string, y': string, x': string)
    ensures (x + y + z) + text + (z' + y' + x') == x + (y + (z + text + z') + y') + x'
  {
    Nest(y, z, text, z', y');
    Nest(x, y + z, text, z' + y', x');
    assert x + (y + z) == x + y + z;
    assert (z' + y') + x' == z' + y' + x';
  }

  lemma GplLinesAreBare(text: string)
    requires text in GPL_LICENSE_LINES
    ensures IsBare(text)
  {
    var i :| 0 <= i < |GPL_LICENSE_LINES| && text == GPL_LICENSE_LINES[i];
    GplLineIsBare(i);
  }

  lemma GplLineIsBare(i: nat)
    requires i < |GPL_LICENSE_LINES|
    ensures IsBare(GPL_LICENSE_LINES[i])
  {
    hide IsSpace, IsCommentMark;
    if i == 0 {
      FirstGplLine();
    } else {
      GplLineStarts(i);
      GplLineEnds(i);
    }
  }

  predicate IsBareChar(c: char) {
    !IsSpace(c) && !IsCommentMark(c)
  }

  lemma GplLineStarts(i: nat)
    requires 0 < i < |GPL_LICENSE_LINES|
    ensures GPL_LICENSE_LINES[i] != "" && IsBareChar(GPL_LICENSE_LINES[i][0])
  {
    var c := GPL_LICENSE_LINES[i][0];
    assert c == 'i' || c == 'p' || c == 'T' || c == 'b' || c == 'M' || c == 'G' || c == 'Y' || c == 'a' || c == 'F';
  }

  lemma GplLineEnds(i: nat)
    requires 0 < i < |GPL_LICENSE_LINES|
    ensures var text := GPL_LICENSE_LINES[i]; text != "" && IsBareChar(text[|text| - 1])
  {
    var text := GPL_LICENSE_LINES[i];
    assert |text| == [65, 42, 63, 62, 61, 44, 65, 59, 73][i - 1];
    var c := text[|text| - 1];
    assert c == 's' || c == ';' || c == ',' || c == 'f' || c == 'e' || c == '.' || c == 'A';
  }

  lemma FirstGplLine()
    ensures IsBare(FIRST_GPL_LINE)
  {
    var x, y := "This program is free software; ", "you can redistribute it and/or modify";
    assert FIRST_GPL_LINE == x + y && FIRST_GPL_LINE[0] == x[0] && FIRST_GPL_LINE[|x| + |y| - 1] == y[|y| - 1];
  }

  /** Exactly the lines do not comply that show a line of the license text, up to the spaces and comment
      marks in their margins. */
  lemma LicenseFinds(line: string)
    ensures !CheckLicense(line).compliant
            <==> exists a, text, b :: text in GPL_LICENSE_LINES && Shows(line, a, text, b)
  {
    var a, b := ShowsLicenseText(line);
    if a', text, b' :| text in GPL_LICENSE_LINES && Shows(line, a', text, b') {
      GplLinesAreBare(text);
      MarginsAreStripped(line, a', text, b');
    }
  }

  /** The first line of the text becomes the SPDX line, margins unchanged; the other lines go. */
  lemma LicenseFixKeepsMargins(line: string, a: string, text: string, b: string)
    requires text in GPL_LICENSE_LINES && Shows(line, a, text, b)
    ensures CheckLicense(line).fixed == if text == FIRST_GPL_LINE then a + SPDX_LICENSE + b else ""
  {
    GplLinesAreBare(text);
    MarginsAreStripped(line, a, text, b);
    if text == FIRST_GPL_LINE {
      MarginIsPadding(a);
      MarginIsPadding(b);
      assert FIRST_GPL_LINE[0] == 'T';
      ReplaceInPadding(a, FIRST_GPL_LINE, b, SPDX_LICENSE);
    }
  }

  lemma MarginIsPadding(a: string)
    requires IsMargin(a)
    ensures IsPadding(a)
  {
    var x, y, z :| Around(a, x, y, z);
    forall i | 0 <= i < |a| ensures IsSpace(a[i]) || IsCommentMark(a[i]) {
      assert a[i] == if i < |x| then x[i] else if i < |x| + |y| then y[i - |x|] else z[i - |x| - |y|];
    }
  }

  // ---------------------------------------------------------------------------------------------
  // Doxygen tags
  // ---------------------------------------------------------------------------------------------

  /** The line reads: spaces, a comment marker, spaces, a backslash and a word of three characters or more,
      and then a space or the end. */
  ghost predicate Tagged(isWord: char -> bool, line: string, a: string, marker: string, b: string, word: string, rest: string) {
    && line == a + marker + b + ("\\" + word) + rest
    && All(IsSpace, a) && (marker == "*" || marker == "/**" || marker == "///") && All(IsSpace, b)
    && |word| >= 3 && All(isWord, word)
    && (rest == "" || IsSpace(rest[0]))
  }

  /** The scanner on a text with a tag from j to q behind a marker from i on. */
  lemma TagScanned(isWord: char -> bool, s: string, i: nat, m: nat, j: nat, q: nat)
    requires IsWordClass(isWord) && i + m <= j && j + 4 <= q <= |s|
    requires m > 0 && MarkerLength(s, i) == m && All(IsSpace, s[..i]) && All(IsSpace, s[i + m..j])
    requires !IsSpace(s[i]) && s[j] == '\\' && All(isWord, s[j + 1..q]) && (q < |s| ==> IsSpace(s[q]))
    ensures TagPosition(s) == j && TagAt(isWord, s, j) == s[j..q]
  {
    assert forall k :: 0 <= k < i ==> IsSpace(s[..i][k]);
    assert SkipWhile(IsSpace, s, 0) == i;
    assert forall k :: i + m <= k < j ==> s[k] == s[i + m..j][k - i - m];
    assert SkipWhile(IsSpace, s, i + m) == j;
    assert forall k :: j + 1 <= k < q ==> s[k] == s[j + 1..q][k - j - 1];
    assert SkipWhile(isWord, s, j + 1) == q;
  }

  lemma MarkerFound(s: string, i: nat, marker: string)
    requires marker == "*" || marker == "/**" || marker == "///"
    requires i + |marker| <= |s| && s[i..i + |marker|] == marker
    ensures MarkerLength(s, i) == |marker| > 0 && !IsSpace(s[i])
  {
    assert s[i] == marker[0];
  }

  lemma TaggedIsFound(isWord: char -> bool, line: string, a: string, marker: string, b: string, word: string, rest: string)
    requires IsWordClass(isWord) && Tagged(isWord, line, a, marker, b, word, rest)
    ensures DoxygenTag(isWord, line) == "\\" + word
  {
    var s := RStrip(IsSpace, line);
    var tag := "\\" + word;
    var i, j := |a|, |a + marker + b|;
    var q := j + |tag|;
    TaggedParts(a, marker, b, word, rest);
    assert isWord(word[|word| - 1]) && line[q - 1] == word[|word| - 1];
    assert |s| >= q;
    assert q < |s| ==> s[q] == rest[0];
    hide IsSpace, RStrip, SkipWhile, TagAt, TagPosition, MarkerLength;
    SameSlice(s, line, 0, i);
    SameSlice(s, line, i, i + |marker|);
    SameSlice(s, line, i + |marker|, j);
    SameSlice(s, line, j + 1, q);
    SameSlice(s, line, j, q);
    MarkerFound(s, i, marker);
    assert s[j] == '\\';
    TagScanned(isWord, s, i, |marker|, j, q);
  }

  lemma SameSlice(s: string, line: string, i: nat, j: nat)
    requires s <= line && i <= j <= |s|
    ensures s[i..j] == line[i..j]
  {
  }

  lemma TaggedParts(a: string, marker: string, b: string, word: string, rest: string)
    ensures var line := a + marker + b + ("\\" + word) + rest;
            var i, j := |a|, |a + marker + b|;
            var q := j + 1 + |word|;
            && line[..i] == a && line[i..i + |marker|] == marker && line[i + |marker|..j] == b
            && line[j] == '\\' && line[j + 1..q] == word && line[j..q] == "\\" + word && line[q..] == rest
  {
  }

  lemma FoundIsTagged(isWord: char -> bool, line: string) returns (a: string, marker: string, b: string, word: string, rest: string)
    requires DoxygenTag(isWord, line) != ""
    ensures Tagged(isWord, line, a, marker, b, word, rest) && DoxygenTag(isWord, line) == "\\" + word
  {
    var s := RStrip(IsSpace, line);
    var i, m, j, q := ScannedParts(isWord, s);
    a, marker, b, word, rest := s[..i], s[i..i + m], s[i + m..j], s[j + 1..q], line[q..];
    hide SkipWhile, TagAt, TagPosition, MarkerLength, All;
    Assemble(line, s, i, i + m, j, q);
    assert q == |s| && rest != "" ==> IsSpace(line[q]);
  }

  lemma Assemble(line: string, s: string, i: nat, k: nat, j: nat, q: nat)
    requires s <= line && i <= k <= j < q <= |s| && s[j] == '\\'
    ensures s[j..q] == "\\" + s[j + 1..q]
    ensures line == s[..i] + s[i..k] + s[k..j] + ("\\" + s[j + 1..q]) + line[q..]
    ensures q < |s| ==> line[q] == s[q]
  {
    Concatenated(s, i, k, j, q);
    assert s[j..q] == "\\" + s[j + 1..q];
    assert s[..q] == line[..q];
  }

  lemma Concatenated(s: string, i: nat, k: nat, j: nat, q: nat)
    requires i <= k <= j <= q <= |s|
    ensures s[..i] + s[i..k] + s[k..j] + s[j..q] == s[..q]
  {
  }

  /** Where the scanner has found the parts of a tag. */
  lemma ScannedParts(isWord: char -> bool, s: string) returns (i: nat, m: nat, j: nat, q: nat)
    requires TagPosition(s) >= 0 && TagAt(isWord, s, TagPosition(s)) != ""
    ensures i + m <= j == TagPosition(s) && j + 4 <= q <= |s| && All(IsSpace, s[..i]) && All(IsSpace, s[i + m..j])
    ensures s[i..i + m] == "*" || s[i..i + m] == "/**" || s[i..i + m] == "///"
    ensures s[j] == '\\' && All(isWord, s[j + 1..q]) && (q < |s| ==> IsSpace(s[q]))
    ensures TagAt(isWord, s, j) == s[j..q]
  {
    i, j := SkipWhile(IsSpace, s, 0), TagPosition(s);
    m, q := MarkerLength(s, i), SkipWhile(isWord, s, j + 1);
    MarkerIsOne(s, i);
    AllOfSlice(IsSpace, s, 0, i);
    AllOfSlice(IsSpace, s, i + m, j);
    AllOfSlice(isWord, s, j + 1, q);
  }

  lemma AllOfSlice(p: char -> bool, s: string, i: nat, j: nat)
    requires i <= j <= |s| && forall k :: i <= k < j ==> p(s[k])
    ensures All(p, s[i..j])
  {
  }

  lemma MarkerIsOne(s: string, i: nat)
    requires i <= |s| && MarkerLength(s, i) > 0
    ensures i + MarkerLength(s, i) <= |s|
    ensures var marker := s[i..i + MarkerLength(s, i)]; marker == "*" || marker == "/**" || marker == "///"
  {
    if s[i] == '*' {
      assert s[i..i + 1] == "*";
    }
  }

  /** The scanner finds exactly what the regular expression describes. */
  lemma DoxygenFinds(isWord: char -> bool, line: string)
    requires IsWordClass(isWord)
    ensures !CheckDoxygenTags(isWord, line).compliant
            <==> exists a, marker, b, word, rest ::
                   Tagged(isWord, line, a, marker, b, word, rest) && "\\" + word !in ["\\dots", "\\langle", "\\quad"]
  {
    if DoxygenTag(isWord, line) != "" {
      var a, marker, b, word, rest := FoundIsTagged(isWord, line);
    }
    forall a, marker, b, word, rest | Tagged(isWord, line, a, marker, b, word, rest)
      ensures DoxygenTag(isWord, line) == "\\" + word
    {
      TaggedIsFound(isWord, line, a, marker, b, word, rest);
    }
  }

  /** Replacing a tag changes backslashes to at signs only. */
  lemma {:induction false} ReplaceTag(s: string, word: string)
    ensures var r := Replace(s, "\\" + word, "@" + word);
            && |r| == |s|
            && forall i :: 0 <= i < |s| ==> r[i] == s[i] || (s[i] == '\\' && r[i] == '@')
  {
    var tag := "\\" + word;
    if |s| < |tag| {
    } else if s[..|tag|] == tag {
      ReplaceTag(s[|tag|..], word);
      assert forall i :: 0 <= i < |tag| ==> s[i] == tag[i];
    } else {
      ReplaceTag(s[1..], word);
    }
  }

  /** A text without backslash and at sign that starts the replaced text started the text already. */
  lemma {:induction false} ReplacedStart(s: string, word: string, w: string)
    requires '@' !in w && w <= Replace(s, "\\" + word, "@" + word)
    ensures w <= s
  {
    var tag := "\\" + word;
    var r := Replace(s, tag, "@" + word);
    if w != "" && |s| >= |tag| {
      assert r[0] == w[0];
      if s[..|tag|] != tag {
        assert r[1..] == Replace(s[1..], tag, "@" + word);
        assert w[1..] <= r[1..];
        ReplacedStart(s[1..], word, w[1..]);
      }
    }
  }

  /** No occurrence of the tag is left. */
  lemma {:induction false} NoTagIsLeft(s: string, word: string)
    requires '@' !in word && '\\' !in word
    ensures !Contains(Replace(s, "\\" + word, "@" + word), "\\" + word)
  {
    var tag := "\\" + word;
    var r := Replace(s, tag, "@" + word);
    if |s| < |tag| {
      ShortContainsNot(s, tag);
    } else if s[..|tag|] == tag {
      NoTagIsLeft(s[|tag|..], word);
      PrependedContainsNot("@" + word, Replace(s[|tag|..], tag, "@" + word), tag);
    } else {
      NoTagIsLeft(s[1..], word);
      assert r[1..] == Replace(s[1..], tag, "@" + word);
      if tag <= r {
        assert r[0] == s[0] == '\\' && tag[1..] == word;
        assert word <= r[1..];
        ReplacedStart(s[1..], word, word);
        StartsWithTag(s, word);
      }
    }
  }

  lemma StartsWithTag(s: string, word: string)
    requires s != [] && s[0] == '\\' && word <= s[1..]
    ensures |s| > |word| && s[..|word| + 1] == "\\" + word
  {
    assert s == [s[0]] + s[1..];
  }

  lemma {:induction false} ShortContainsNot(s: string, sub: string)
    requires |s| < |sub|
    ensures !Contains(s, sub)
  {
    if s != [] {
      ShortContainsNot(s[1..], sub);
    }
  }

  lemma {:induction false} PrependedContainsNot(a: string, s: string, sub: string)
    requires sub != [] && sub[0] !in a && !Contains(s, sub)
    ensures !Contains(a + s, sub)
  {
    if a == [] {
      assert a + s == s;
    } else {
      assert (a + s)[1..] == a[1..] + s && (a + s)[0] == a[0];
      PrependedContainsNot(a[1..], s, sub);
    }
  }

  /** The fix turns the backslash of the tag into an at sign, wherever that tag occurs in the line, and
      nothing else. */
  lemma DoxygenFixKeepsRest(isWord: char -> bool, line: string, a: string, marker: string, b: string, word: string, rest: string)
    requires IsWordClass(isWord) && Tagged(isWord, line, a, marker, b, word, rest) && "\\" + word !in IGNORED_WORDS
    ensures var fixed := CheckDoxygenTags(isWord, line).fixed;
            && a + marker + b + ("@" + word) <= fixed
            && |fixed| == |line|
            && (forall i :: 0 <= i < |line| ==> fixed[i] == line[i] || (line[i] == '\\' && fixed[i] == '@'))
            && !Contains(fixed, "\\" + word)
  {
    TaggedIsFound(isWord, line, a, marker, b, word, rest);
    ReplaceTag(line, word);
    assert forall i :: 0 <= i < |word| ==> isWord(word[i]);
    NoTagIsLeft(line, word);
    NoBackslash(a, marker, b);
    ReplaceFirst(a + marker + b, "\\" + word, rest, "@" + word);
  }

  lemma NoBackslash(a: string, marker: string, b: string)
    requires All(IsSpace, a) && (marker == "*" || marker == "/**" || marker == "///") && All(IsSpace, b)
    ensures '\\' !in a + marker + b
  {
  }
}
