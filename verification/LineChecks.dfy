/** The line checkers of utils/check-style-clang-format.py, each with the promise the file fixer needs:
    a fixed line complies or is deleted, stays one line, and a guard line stays the guard it was. */
module LineChecks {
  import opened Text
  import opened StyleCheck

  // ---------------------------------------------------------------------------------------------
  // Trailing whitespace
  // ---------------------------------------------------------------------------------------------

  function CheckWhitespace(line: string): LineResult {
    var fixed := RStrip(IsSpace, line) + "\n";
    LineResult(fixed == line, fixed)
  }

  lemma WhitespaceLawful()
    ensures Lawful(CheckWhitespace, true)
  {
    forall line | IsLine(line) ensures LawfulOn(CheckWhitespace, true, line) {
      WhitespaceLawfulOn(line);
    }
  }

  lemma WhitespaceLawfulOn(line: string)
    requires IsLine(line)
    ensures LawfulOn(CheckWhitespace, true, line)
  {
    var r := RStrip(IsSpace, line);
    FixedWhitespace(line);
    SameGuard(line, r + "\n");
    hide Strip, LStrip, RStrip, GuardOf, IsSpace;
  }

  /** The fixed line strips to what the line strips to. */
  lemma FixedWhitespace(line: string)
    requires IsLine(line)
    ensures var fixed := RStrip(IsSpace, line) + "\n";
            RStrip(IsSpace, fixed) == RStrip(IsSpace, line) && IsLine(fixed) && Ended(fixed)
  {
    var r := RStrip(IsSpace, line);
    assert (r + "\n")[..|r|] == r;
    assert RStrip(IsSpace, r) == r;
    assert IsSpace('\n');
  }

  lemma SameGuard(line: string, fixed: string)
    requires RStrip(IsSpace, line) == RStrip(IsSpace, fixed)
    ensures GuardOf(line) == GuardOf(fixed)
  {
  }

  // ---------------------------------------------------------------------------------------------
  // Tabs
  // ---------------------------------------------------------------------------------------------

  function CheckTabs(line: string): LineResult {
    if '\t' in line then LineResult(false, ExpandTabs(line, 0)) else LineResult(true, line)
  }

  lemma TabsLawful()
    ensures Lawful(CheckTabs, true)
  {
    forall line | IsLine(line) ensures LawfulOn(CheckTabs, true, line) {
      ExpandLeavesNoTab(line, 0);
      ExpandKeepsLine(line, 0);
      if GuardOf(line) != NoGuard {
        GuardIsText(line);
        ExpandKeepsStripped(line);
      }
    }
  }

  /** A tab fix can make a guard line out of a line that was none. */
  lemma TabFixCanMakeGuard()
    ensures var line := " //\t" + ("clang-format off" + "\n");
            GuardOf(line) == NoGuard && GuardOf(CheckTabs(line).fixed) == Off
  {
    hide GuardOf, ExpandTabs;
    var y := "clang-format off";
    var line := " //\t" + (y + "\n");
    assert line[3] == '\t';
    TabbedIsNoGuard(y);
    ExpandAfterSlashes(y + "\n");
    assert " // " + (y + "\n") == " " + FORMAT_GUARD_OFF[0] + "\n";
    PaddedOffIsOff();
  }

  lemma TabbedIsNoGuard(y: string)
    requires y != [] && !IsSpace(y[|y| - 1])
    ensures GuardOf(" //\t" + (y + "\n")) == NoGuard
  {
    var x := "//\t" + y;
    var line := " //\t" + (y + "\n");
    assert line == " " + x + "\n";
    StripPadded(IsSpace, " ", x, "\n");
    assert x[2] == '\t';
    GuardIsText(line);
  }

  lemma PaddedOffIsOff()
    ensures GuardOf(" " + FORMAT_GUARD_OFF[0] + "\n") == Off
  {
    StripPadded(IsSpace, " ", FORMAT_GUARD_OFF[0], "\n");
    OffIsNotOn();
  }

  lemma OffIsNotOn()
    ensures FORMAT_GUARD_OFF[0] !in FORMAT_GUARD_ON
  {
    assert |FORMAT_GUARD_OFF[0]| == 19 && |FORMAT_GUARD_ON[0]| == 18 && |FORMAT_GUARD_ON[2]| == 9;
    assert FORMAT_GUARD_OFF[0][0] == '/' && FORMAT_GUARD_ON[1][0] == '#';
  }

  lemma ExpandAfterSlashes(y: string)
    requires '\t' !in y
    ensures ExpandTabs(" //\t" + y, 0) == " // " + y
  {
    hide ExpandTabs;
    ExpandPlain(' ', "//\t" + y, 0);
    ExpandPlain('/', "/\t" + y, 1);
    ExpandPlain('/', "\t" + y, 2);
    ExpandTab(y, 3);
    assert [' '] + ("//\t" + y) == " //\t" + y;
    assert ['/'] + ("/\t" + y) == "//\t" + y;
    assert ['/'] + ("\t" + y) == "/\t" + y;
    ExpandLeavesNoTab(y, 4);
  }

  lemma ExpandTab(s: string, col: nat)
    requires col % TAB_SIZE == 3
    ensures ExpandTabs("\t" + s, col) == " " + ExpandTabs(s, col + 1)
  {
    assert ("\t" + s)[1..] == s;
    assert Spaces(1) == " ";
  }

  lemma ExpandPlain(c: char, s: string, col: nat)
    requires c != '\t' && c != '\n' && c != '\r'
    ensures ExpandTabs([c] + s, col) == [c] + ExpandTabs(s, col + 1)
  {
    assert ([c] + s)[1..] == s;
  }

  // ---------------------------------------------------------------------------------------------
  // Emacs file style comments
  // ---------------------------------------------------------------------------------------------

  function CheckEmacs(line: string): LineResult {
    var stripped := Strip(IsSpace, line);
    if Contains(stripped, "c-file-style:") || Contains(stripped, "py-indent-offset:") then LineResult(false, "")
    else LineResult(true, line)
  }

  lemma EmacsLawful()
    ensures Lawful(CheckEmacs, true)
  {
    forall line | IsLine(line) ensures LawfulOn(CheckEmacs, true, line) {
      if !CheckEmacs(line).compliant {
        MarkedIsNoGuard(line);
        EmptyIsNoGuard();
      }
      hide GuardOf, Contains, Strip;
    }
  }

  lemma MarkedIsNoGuard(line: string)
    requires !CheckEmacs(line).compliant
    ensures GuardOf(line) == NoGuard
  {
    var stripped := Strip(IsSpace, line);
    GuardIsText(line);
    hide Strip, IsSpace, Contains, GuardOf;
    MarkersHaveY();
    if Contains(stripped, "c-file-style:") {
      ContainsCharacters(stripped, "c-file-style:", 'y');
    } else {
      ContainsCharacters(stripped, "py-indent-offset:", 'y');
    }
  }

  lemma MarkersHaveY()
    ensures 'y' in "c-file-style:" && 'y' in "py-indent-offset:"
  {
    assert "c-file-style:"[9] == 'y' && "py-indent-offset:"[1] == 'y';
  }

  lemma EmptyIsNoGuard()
    ensures GuardOf("") == NoGuard
  {
    GuardIsText("");
    assert Strip(IsSpace, "") == "";
  }

  // ---------------------------------------------------------------------------------------------
  // Licenses
  // ---------------------------------------------------------------------------------------------

  const FIRST_GPL_LINE := "This program is free software; " + "you can redistribute it and/or modify"

  const GPL_LICENSE_LINES: seq<string> := [
    FIRST_GPL_LINE,
    "it under the terms of the " + "GNU General Public License version 2 as",
    "published by the Free " + "Software Foundation;",
    "This program is distributed " + "in the hope that it will be useful,",
    "but WITHOUT ANY WARRANTY; " + "without even the implied warranty of",
    "MERCHANTABILITY or FITNESS " + "FOR A PARTICULAR PURPOSE.  See the",
    "GNU General Public License " + "for more details.",
    "You should have received a copy " + "of the GNU General Public License",
    "along with this program; " + "if not, write to the Free Software",
    "Foundation, Inc., 59 Temple Place, " + "Suite 330, Boston, MA  02111-1307  USA"
  ]

  const SPDX_LICENSE := "SPDX-License-" + "Identifier: GPL-2.0-only"

  predicate IsCommentMark(c: char) {
    c == '*' || c == '#' || c == '/'
  }

  lemma CommentMarks(c: char)
    ensures IsCommentMark(c) <==> c in "*#/"
  {
  }

  function LicenseText(line: string): string {
    Strip(IsSpace, Strip(IsCommentMark, Strip(IsSpace, line)))
  }

  function CheckLicense(line: string): LineResult {
    var text := LicenseText(line);
    if text in GPL_LICENSE_LINES then
      LineResult(false, if text == FIRST_GPL_LINE then Replace(line, FIRST_GPL_LINE, SPDX_LICENSE) else "")
    else LineResult(true, line)
  }

  lemma GplLinesAreLong(text: string)
    ensures text in GPL_LICENSE_LINES ==> |text| >= 42
    ensures |SPDX_LICENSE| == 37
  {
  }

  lemma SpdxIsPlain()
    ensures SPDX_LICENSE[0] == 'S' && SPDX_LICENSE[36] == 'y' && |SPDX_LICENSE| == 37 && '\n' !in SPDX_LICENSE
  {
    var x, y := "SPDX-License-", "Identifier: GPL-2.0-only";
    assert '\n' !in x && '\n' !in y;
  }

  ghost predicate IsPadding(s: string) {
    forall i :: 0 <= i < |s| ==> IsSpace(s[i]) || IsCommentMark(s[i])
  }

  /** Around the license text a line has spaces and comment marks only, and any other text in the same
      place would be found there as well. */
  lemma LicensePadding(line: string, text: string) returns (a: string, b: string)
    requires LicenseText(line) != ""
    requires text != "" && !IsSpace(text[0]) && !IsSpace(text[|text| - 1])
    requires !IsCommentMark(text[0]) && !IsCommentMark(text[|text| - 1])
    ensures line == a + LicenseText(line) + b && IsPadding(a) && IsPadding(b)
    ensures !IsSpace(LicenseText(line)[|LicenseText(line)| - 1])
    ensures LicenseText(a + text + b) == text
  {
    hide Strip, IsSpace, IsCommentMark;
    var s1 := Strip(IsSpace, line);
    var a1, b1 := StripSplits(IsSpace, line);
    var c, d := MarkPadding(s1, text);
    a, b := a1 + c, d + b1;
    Padding(a1, c);
    Padding(b1, d);
    SameEnds(IsSpace, c, LicenseText(line), d, text);
    Nest(a1, c, LicenseText(line), d, b1);
    Nest(a1, c, text, d, b1);
    StripPadded(IsSpace, a1, c + text + d, b1);
    EndsOfStrip(IsSpace, Strip(IsCommentMark, s1));
  }

  /** The two inner strips. */
  lemma MarkPadding(s: string, text: string) returns (a: string, b: string)
    requires Strip(IsSpace, Strip(IsCommentMark, s)) != ""
    requires text != "" && !IsSpace(text[0]) && !IsSpace(text[|text| - 1])
    requires !IsCommentMark(text[0]) && !IsCommentMark(text[|text| - 1])
    ensures s == a + Strip(IsSpace, Strip(IsCommentMark, s)) + b && IsPadding(a) && IsPadding(b)
    ensures Strip(IsSpace, Strip(IsCommentMark, a + text + b)) == text
  {
    var x := Strip(IsSpace, Strip(IsCommentMark, s));
    var a2, b2 := StripSplits(IsCommentMark, s);
    var a3, b3 := StripSplits(IsSpace, Strip(IsCommentMark, s));
    a, b := a2 + a3, b3 + b2;
    Padding(a3, a2);
    Padding(b3, b2);
    SameEnds(IsCommentMark, a3, x, b3, text);
    Nest(a2, a3, x, b3, b2);
    Nest(a2, a3, text, b3, b2);
    StripPadded(IsCommentMark, a2, a3 + text + b3, b2);
    StripPadded(IsSpace, a3, text, b3);
  }

  lemma Nest(a: string, b: string, x: string, c: string, d: string)
    ensures (a + b) + x + (c + d) == a + (b + x + c) + d
  {
  }

  lemma Padding(a: string, b: string)
    requires All(IsSpace, a) && (All(IsCommentMark, b) || IsPadding(b))
    ensures IsPadding(a + b) && IsPadding(b + a)
  {
  }

  lemma EndsOfStrip(p: char -> bool, s: string)
    requires Strip(p, s) != []
    ensures !p(Strip(p, s)[|Strip(p, s)| - 1])
  {
    var a, b := StripSplits(p, s);
  }

  lemma SameEnds(p: char -> bool, a: string, x: string, b: string, y: string)
    requires x != [] && y != [] && !p(y[0]) && !p(y[|y| - 1])
    requires !p((a + x + b)[0]) && !p((a + x + b)[|a + x + b| - 1])
    ensures !p((a + y + b)[0]) && !p((a + y + b)[|a + y + b| - 1])
  {
    assert (a + y + b)[0] == if a == [] then y[0] else (a + x + b)[0];
    assert (a + y + b)[|a + y + b| - 1] == if b == [] then y[|y| - 1] else (a + x + b)[|a + x + b| - 1];
  }

  lemma LicenseTextIsShort(line: string)
    ensures |LicenseText(line)| <= |Strip(IsSpace, line)|
  {
    var a2, b2 := StripSplits(IsCommentMark, Strip(IsSpace, line));
    var a3, b3 := StripSplits(IsSpace, Strip(IsCommentMark, Strip(IsSpace, line)));
  }

  /** Replacing the first line of the old text leaves a line whose license text is the SPDX one. */
  lemma SpdxFix(line: string)
    requires LicenseText(line) == FIRST_GPL_LINE
    ensures LicenseText(Replace(line, FIRST_GPL_LINE, SPDX_LICENSE)) == SPDX_LICENSE
    ensures IsLine(line) ==> '\n' !in FIRST_GPL_LINE
  {
    assert FIRST_GPL_LINE[0] == 'T';
    SpdxIsPlain();
    var a, b := LicensePadding(line, SPDX_LICENSE);
    ReplaceInPadding(a, FIRST_GPL_LINE, b, SPDX_LICENSE);
    if IsLine(line) {
      TextHasNoNewline(line, a, FIRST_GPL_LINE, b);
    }
  }

  lemma ReplaceInPadding(a: string, pat: string, b: string, sub: string)
    requires IsPadding(a) && IsPadding(b) && pat != "" && pat[0] == 'T'
    ensures Replace(a + pat + b, pat, sub) == a + sub + b
  {
    ReplaceFirst(a, pat, b, sub);
    ReplaceNothing(b, pat, sub);
  }

  lemma TextHasNoNewline(line: string, a: string, x: string, b: string)
    requires IsLine(line) && line == a + x + b && x != [] && !IsSpace(x[|x| - 1])
    ensures '\n' !in x
  {
    forall i | 0 <= i < |x| ensures x[i] != '\n' {
      assert line[|a| + i] == x[i];
    }
  }

  lemma LicenseLawful()
    ensures Lawful(CheckLicense, true)
  {
    forall line | IsLine(line) ensures LawfulOn(CheckLicense, true, line) {
      var text := LicenseText(line);
      GuardIsText(line);
      LicenseTextIsShort(line);
      GplLinesAreLong(text);
      GplLinesAreLong(SPDX_LICENSE);
      if text == FIRST_GPL_LINE {
        SpdxFix(line);
        SpdxIsPlain();
        ReplaceKeepsLine(line, FIRST_GPL_LINE, SPDX_LICENSE);
      }
    }
  }

  // ---------------------------------------------------------------------------------------------
  // Include quotes
  // ---------------------------------------------------------------------------------------------

  const INCLUDE_PREFIX := "#include <ns3/"

  /** `re.findall(r"^#include <ns3/.*\.h>", line)` is not empty. */
  predicate IsNs3Include(line: string) {
    && INCLUDE_PREFIX <= line
    && exists j :: |INCLUDE_PREFIX| <= j <= |line| - 3 && line[j..j + 3] == ".h>" && '\n' !in line[|INCLUDE_PREFIX|..j]
  }

  function CheckIncludeQuotes(line: string): LineResult {
    if IsNs3Include(line) then LineResult(false, Replace(Replace(line, "<", "\""), ">", "\""))
    else LineResult(true, line)
  }

  lemma IncludeQuotesLawful()
    ensures Lawful(CheckIncludeQuotes, true)
  {
    forall line | IsLine(line) ensures LawfulOn(CheckIncludeQuotes, true, line) {
      if IsNs3Include(line) {
        QuotesFix(line);
        IncludeIsNoGuard(line);
      }
    }
  }

  lemma QuotesFix(line: string)
    requires IsLine(line)
    ensures var fixed := Replace(Replace(line, "<", "\""), ">", "\"");
            !IsNs3Include(fixed) && IsLine(fixed) && (Ended(line) ==> Ended(fixed))
  {
    var once := Replace(line, "<", "\"");
    var fixed := Replace(once, ">", "\"");
    ReplaceKeepsLine(line, "<", "\"");
    ReplaceKeepsLine(once, ">", "\"");
    ReplaceRemoves(line, '<', '"');
    ReplaceBringsNoOther(once, '>', '"', '<');
    assert INCLUDE_PREFIX[9] == '<';
    NoPrefix(INCLUDE_PREFIX, fixed, 9);
  }

  lemma NoPrefix(p: string, s: string, i: nat)
    requires i < |p| && p[i] !in s
    ensures !(p <= s)
  {
    assert i < |s| ==> s[i] != p[i];
  }

  lemma IncludeIsNoGuard(line: string)
    requires INCLUDE_PREFIX <= line
    ensures GuardOf(line) == NoGuard
  {
    assert INCLUDE_PREFIX[0] == '#' && INCLUDE_PREFIX[1] == 'i';
    StartsWithItsStrip(line, INCLUDE_PREFIX);
    GuardStart(line);
  }

  /** A line that starts with two characters that are no spaces is its own strip so far. */
  lemma StartsWithItsStrip(line: string, prefix: string)
    requires prefix <= line && |prefix| > 1 && !IsSpace(prefix[0]) && !IsSpace(prefix[1])
    ensures |Strip(IsSpace, line)| > 1
    ensures Strip(IsSpace, line)[0] == prefix[0] && Strip(IsSpace, line)[1] == prefix[1]
  {
    assert line[0] == prefix[0] && line[1] == prefix[1];
    var r := RStrip(IsSpace, line);
    assert |r| > 1;
    assert r[0] == line[0];
    assert SkipWhile(IsSpace, r, 0) == 0;
  }

  // ---------------------------------------------------------------------------------------------
  // Doxygen tags
  // ---------------------------------------------------------------------------------------------

  const IGNORED_WORDS := ["\\dots", "\\langle", "\\quad"]

  /** What `\w` matches is left open: any set of characters without spaces, backslashes and at signs. */
  ghost predicate IsWordClass(isWord: char -> bool) {
    forall c :: isWord(c) ==> !IsSpace(c) && c != '\\' && c != '@'
  }

  // The length of the comment marker at position i: a star, a slash with two stars, three slashes, or none.
  function MarkerLength(s: string, i: nat): nat
    requires i <= |s|
  {
    if i < |s| && s[i] == '*' then 1
    else if i + 3 <= |s| && (s[i..i + 3] == "/**" || s[i..i + 3] == "///") then 3
    else 0
  }

  // Where the spaces, the comment marker and the spaces after it end in s, or -1 without a marker.
  function TagPosition(s: string): (j: int)
    ensures -1 <= j <= |s|
  {
    var i := SkipWhile(IsSpace, s, 0);
    var m := MarkerLength(s, i);
    if m == 0 then -1 else SkipWhile(IsSpace, s, i + m)
  }

  /** The tag that `(\\\w{3,})(?=(?:\s|$))` finds at position j of s, or "". */
  function TagAt(isWord: char -> bool, s: string, j: nat): (tag: string)
    requires j <= |s|
    ensures tag != "" ==> |tag| >= 4 && tag[0] == '\\' && tag <= s[j..] && forall i :: 0 < i < |tag| ==> isWord(tag[i])
  {
    if j < |s| && s[j] == '\\' then
      var k := SkipWhile(isWord, s, j + 1);
      if k - j >= 4 && (k == |s| || IsSpace(s[k])) then s[j..k] else ""
    else ""
  }

  function DoxygenTag(isWord: char -> bool, line: string): string {
    var s := RStrip(IsSpace, line);
    var j := TagPosition(s);
    if j < 0 then "" else TagAt(isWord, s, j)
  }

  function CheckDoxygenTags(isWord: char -> bool, line: string): LineResult {
    var tag := DoxygenTag(isWord, line);
    if tag != "" && tag !in IGNORED_WORDS then LineResult(false, Replace(line, tag, "@" + tag[1..]))
    else LineResult(true, line)
  }

  /** What stands before the tag: spaces, the marker, spaces; so no backslash. */
  lemma BeforeTag(s: string, j: nat)
    requires TagPosition(s) == j
    ensures '\\' !in s[..j]
    ensures MarkerLength(s, SkipWhile(IsSpace, s, 0)) > 0
  {
    var i := SkipWhile(IsSpace, s, 0);
    var m := MarkerLength(s, i);
    assert forall k :: i <= k < i + m ==> s[k] != '\\' by {
      if m == 3 {
        assert s[i] == s[i..i + 3][0] && s[i + 1] == s[i..i + 3][1] && s[i + 2] == s[i..i + 3][2];
      }
    }
  }

  /** The tag position depends only on what stands before it and on the next character being no space. */
  lemma SamePosition(s: string, t: string, j: nat)
    requires TagPosition(s) == j && j < |s| && j < |t| && t[..j] == s[..j] && !IsSpace(t[j])
    ensures TagPosition(t) == j
  {
    var i := SkipWhile(IsSpace, s, 0);
    var m := MarkerLength(s, i);
    assert forall k :: 0 <= k < j ==> t[k] == s[k] by {
      assert forall k :: 0 <= k < j ==> t[..j][k] == s[..j][k];
    }
    assert i + m <= j;
    SkipTo(IsSpace, t, 0, i);
    assert m == 3 ==> t[i..i + 3] == s[i..i + 3];
    assert MarkerLength(t, i) == m;
    SkipTo(IsSpace, t, i + m, j);
  }

  lemma {:induction false} SkipTo(p: char -> bool, s: string, i: nat, k: nat)
    requires i <= k < |s| && !p(s[k]) && forall j :: i <= j < k ==> p(s[j])
    ensures SkipWhile(p, s, i) == k
    decreases k - i
  {
    if i < k {
      SkipTo(p, s, i + 1, k);
    }
  }

  /** The fix puts an at sign where the backslash of the tag stood and leaves what is before it. */
  lemma DoxygenFixText(isWord: char -> bool, line: string, j: nat, tag: string)
    requires j == TagPosition(RStrip(IsSpace, line)) && tag == DoxygenTag(isWord, line) != ""
    ensures var fixed := Replace(line, tag, "@" + tag[1..]);
            j < |fixed| && j < |line| && fixed[..j] == line[..j] && fixed[j] == '@'
  {
    hide Replace, SkipWhile;
    var s := RStrip(IsSpace, line);
    BeforeTag(s, j);
    SplitAt(s, line, j, tag);
    ReplaceFirst(line[..j], tag, line[j + |tag|..], "@" + tag[1..]);
  }

  lemma SplitAt(s: string, line: string, j: nat, tag: string)
    requires s <= line && j <= |s| && tag <= s[j..]
    ensures j + |tag| <= |line| && line == line[..j] + tag + line[j + |tag|..] && line[..j] == s[..j]
  {
    assert line[j..j + |tag|] == s[j..][..|tag|];
  }

  lemma DoxygenFixComplies(isWord: char -> bool, line: string)
    requires IsWordClass(isWord)
    requires DoxygenTag(isWord, line) != ""
    ensures var tag := DoxygenTag(isWord, line);
            CheckDoxygenTags(isWord, Replace(line, tag, "@" + tag[1..])).compliant
  {
    var s := RStrip(IsSpace, line);
    var j := TagPosition(s);
    var tag := DoxygenTag(isWord, line);
    DoxygenFixText(isWord, line, j, tag);
    var fixed := Replace(line, tag, "@" + tag[1..]);
    var t := RStrip(IsSpace, fixed);
    assert j < |t|;
    assert t[..j] == fixed[..j] && s[..j] == line[..j];
    SamePosition(s, t, j);
  }

  lemma DoxygenLawful(isWord: char -> bool)
    requires IsWordClass(isWord)
    ensures Lawful(line => CheckDoxygenTags(isWord, line), true)
  {
    var check := line => CheckDoxygenTags(isWord, line);
    forall line | IsLine(line) ensures LawfulOn(check, true, line) {
      var tag := DoxygenTag(isWord, line);
      if tag != "" && tag !in IGNORED_WORDS {
        DoxygenFixComplies(isWord, line);
        assert forall i :: 0 < i < |tag| ==> isWord(tag[i]);
        assert '\n' !in tag && '\n' !in "@" + tag[1..];
        ReplaceKeepsLine(line, tag, "@" + tag[1..]);
        TaggedIsNoGuard(isWord, line);
      }
    }
  }

  lemma TaggedIsNoGuard(isWord: char -> bool, line: string)
    requires DoxygenTag(isWord, line) != ""
    ensures GuardOf(line) == NoGuard
  {
    var s := RStrip(IsSpace, line);
    var j := TagPosition(s);
    BeforeTag(s, j);
    var i := SkipWhile(IsSpace, s, 0);
    var g := Strip(IsSpace, line);
    assert g == s[i..];
    MarkerStart(s, i);
    GuardStart(line);
  }

  lemma GuardStart(line: string)
    ensures var g := Strip(IsSpace, line);
            GuardOf(line) != NoGuard ==>
              |g| >= 9 && ((g[0] == '/' && g[1] == '/' && g[2] == ' ') || (g[0] == '#' && g[1] == ' '))
  {
    GuardIsText(line);
    var g := Strip(IsSpace, line);
    if GuardOf(line) != NoGuard {
      assert g[..3][0] == g[0] && g[..3][1] == g[1] && g[..3][2] == g[2];
      assert g[..2][0] == g[0] && g[..2][1] == g[1];
    }
  }

  lemma MarkerStart(s: string, i: nat)
    requires i <= |s| && MarkerLength(s, i) > 0
    ensures var g := s[i..]; g != [] && (g[0] == '*' || (|g| >= 3 && g[0] == '/' && (g[1] == '*' || g[2] == '/')))
  {
    if s[i] != '*' {
      assert s[i] == s[i..i + 3][0] && s[i + 1] == s[i..i + 3][1] && s[i + 2] == s[i..i + 3][2];
    }
  }

  // ---------------------------------------------------------------------------------------------
  // The six checks
  // ---------------------------------------------------------------------------------------------

  datatype Check = Quotes | Doxygen | License | Emacs | Whitespace | Tabs

  function LineCheckOf(isWord: char -> bool, c: Check): LineCheck {
    match c
    case Quotes => CheckIncludeQuotes
    case Doxygen => line => CheckDoxygenTags(isWord, line)
    case License => CheckLicense
    case Emacs => CheckEmacs
    case Whitespace => CheckWhitespace
    case Tabs => CheckTabs
  }

  /** For each of the six checks, with and without respect for guards, and every file: after a fix the
      file, read again, complies, and fixing it once more changes nothing. */
  lemma FixedFilesComply(isWord: char -> bool, c: Check, guards: bool, content: string)
    requires IsWordClass(isWord)
    ensures var check := LineCheckOf(isWord, c);
            && Compliant(check, guards, true, ReadLines(AfterFix(check, guards, content)))
            && AfterFix(check, guards, AfterFix(check, guards, content)) == AfterFix(check, guards, content)
  {
    match c {
      case Quotes => IncludeQuotesLawful();
      case Doxygen => DoxygenLawful(isWord);
      case License => LicenseLawful();
      case Emacs => EmacsLawful();
      case Whitespace => WhitespaceLawful();
      case Tabs => TabsLawful();
    }
    LawfulAnyway(LineCheckOf(isWord, c), guards);
    FixThenCheck(LineCheckOf(isWord, c), guards, content);
  }

  lemma LawfulAnyway(check: LineCheck, guards: bool)
    requires Lawful(check, true)
    ensures Lawful(check, guards)
  {
    forall line | IsLine(line) ensures LawfulOn(check, guards, line) {
      assert LawfulOn(check, true, line);
    }
  }
}
