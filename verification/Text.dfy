/** The Python string operations the style checker uses, as functions, with the facts needed about them. */
module Text {

  /** `str.isspace` for one character, which is also what `\s` matches. */
  predicate IsSpace(c: char) {
    || '\t' <= c <= '\r' || '\U{1C}' <= c <= ' ' || c == '\U{85}' || c == '\U{A0}' || c == '\U{1680}'
    || '\U{2000}' <= c <= '\U{200A}' || c == '\U{2028}' || c == '\U{2029}' || c == '\U{202F}'
    || c == '\U{205F}' || c == '\U{3000}'
  }

  /** The same, character by character. */
  lemma SpacesAre(c: char)
    ensures IsSpace(c) <==> c in {'\t', '\n', '\U{0B}', '\U{0C}', '\r', '\U{1C}', '\U{1D}', '\U{1E}', '\U{1F}', ' ', '\U{85}',
                                  '\U{A0}', '\U{1680}', '\U{2000}', '\U{2001}', '\U{2002}', '\U{2003}', '\U{2004}', '\U{2005}',
                                  '\U{2006}', '\U{2007}', '\U{2008}', '\U{2009}', '\U{200A}', '\U{2028}', '\U{2029}', '\U{202F}',
                                  '\U{205F}', '\U{3000}'}
  {
  }

  /** The first index from i on whose character does not satisfy p. */
  function SkipWhile(p: char -> bool, s: string, i: nat): (k: nat)
    requires i <= |s|
    ensures i <= k <= |s|
    ensures forall j :: i <= j < k ==> p(s[j])
    ensures k < |s| ==> !p(s[k])
    decreases |s| - i
  {
    if i < |s| && p(s[i]) then SkipWhile(p, s, i + 1) else i
  }

  /** `s.lstrip` for the characters in p. */
  function LStrip(p: char -> bool, s: string): string {
    s[SkipWhile(p, s, 0)..]
  }

  /** `s.rstrip` for the characters in p. */
  function RStrip(p: char -> bool, s: string): (r: string)
    ensures r <= s
    ensures r != [] ==> !p(r[|r| - 1])
    ensures forall i :: |r| <= i < |s| ==> p(s[i])
  {
    if s != [] && p(s[|s| - 1]) then RStrip(p, s[..|s| - 1]) else s
  }

  /** `s.strip` for the characters in p. */
  function Strip(p: char -> bool, s: string): string {
    LStrip(p, RStrip(p, s))
  }

  /** `s.replace(pat, new)`. */
  function Replace(s: string, pat: string, sub: string): string
    requires pat != []
  {
    if |s| < |pat| then s
    else if s[..|pat|] == pat then sub + Replace(s[|pat|..], pat, sub)
    else [s[0]] + Replace(s[1..], pat, sub)
  }

  /** `sub in s`. */
  predicate Contains(s: string, sub: string) {
    sub <= s || (s != [] && Contains(s[1..], sub))
  }

  const TAB_SIZE := 4

  /** `s.expandtabs(TAB_SIZE)` for a text that starts in column col. */
  function ExpandTabs(s: string, col: nat): string {
    if s == [] then [] else Shown(s[0], col) + ExpandTabs(s[1..], NextColumn(s[0], col))
  }

  function Shown(c: char, col: nat): (r: string)
    ensures r != []
  {
    if c == '\t' then Spaces(TAB_SIZE - col % TAB_SIZE) else [c]
  }

  /** A tab leads to the next tab stop, and a line end back to column 0. */
  function NextColumn(c: char, col: nat): nat {
    if c == '\t' then col + TAB_SIZE - col % TAB_SIZE
    else if c == '\n' || c == '\r' then 0
    else col + 1
  }

  /** Tab stops are four columns apart. */
  lemma TabStops(col: nat)
    ensures NextColumn('\t', col) % 4 == 0 && col < NextColumn('\t', col) <= col + 4
    ensures forall c: char :: c != '\t' && c != '\n' && c != '\r' ==> NextColumn(c, col) == col + 1
  {
  }

  function Spaces(n: nat): (r: string)
    ensures |r| == n && forall i :: 0 <= i < n ==> r[i] == ' '
  {
    seq(n, _ => ' ')
  }

  /** The column a text that starts in column col ends in. */
  ghost function Column(s: string, col: nat): nat {
    if s == [] then col else Column(s[1..], NextColumn(s[0], col))
  }

  // ---------------------------------------------------------------------------------------------
  // Stripping
  // ---------------------------------------------------------------------------------------------

  ghost predicate All(p: char -> bool, s: string) {
    forall i :: 0 <= i < |s| ==> p(s[i])
  }

  /** What stripping removes. */
  lemma StripSplits(p: char -> bool, s: string) returns (a: string, b: string)
    ensures s == a + Strip(p, s) + b && All(p, a) && All(p, b)
    ensures Strip(p, s) != [] ==> !p(Strip(p, s)[0]) && !p(Strip(p, s)[|Strip(p, s)| - 1])
  {
    var r := RStrip(p, s);
    a, b := r[..SkipWhile(p, r, 0)], s[|r|..];
  }

  /** Stripping removes padding and nothing else. */
  lemma StripPadded(p: char -> bool, a: string, x: string, b: string)
    requires All(p, a) && All(p, b) && x != [] && !p(x[0]) && !p(x[|x| - 1])
    ensures Strip(p, a + x + b) == x
  {
    var s := a + x + b;
    var r := RStrip(p, s);
    assert s[|a| + |x| - 1] == x[|x| - 1];
    assert forall i :: |a| + |x| <= i < |s| ==> s[i] == b[i - |a| - |x|];
    assert |r| == |a| + |x|;
    assert r == a + x;
    assert r[|a|] == x[0];
    assert forall i :: 0 <= i < |a| ==> r[i] == a[i];
    assert SkipWhile(p, r, 0) == |a|;
  }

  // ---------------------------------------------------------------------------------------------
  // Replacing
  // ---------------------------------------------------------------------------------------------

  /** A line, as reading a file yields it: not empty, with a newline at the end or nowhere. */
  ghost predicate IsLine(s: string) {
    s != [] && forall i :: 0 <= i < |s| - 1 ==> s[i] != '\n'
  }

  predicate Ended(s: string) {
    s != [] && s[|s| - 1] == '\n'
  }

  lemma {:induction false} ReplaceKeepsLine(s: string, pat: string, sub: string)
    requires IsLine(s) && pat != [] && sub != [] && '\n' !in pat && '\n' !in sub
    ensures IsLine(Replace(s, pat, sub)) && (Ended(Replace(s, pat, sub)) <==> Ended(s))
  {
    if |s| < |pat| {
    } else if s[..|pat|] == pat {
      var rest := s[|pat|..];
      if rest == [] {
        assert s == pat;
        assert s[|s| - 1] in pat;
        assert sub[|sub| - 1] in sub;
      } else {
        ReplaceKeepsLine(rest, pat, sub);
      }
    } else if |s| > 1 {
      ReplaceKeepsLine(s[1..], pat, sub);
    }
  }

  /** What stands before the first possible match stays, and the match is replaced. */
  lemma {:induction false} ReplaceFirst(a: string, pat: string, b: string, sub: string)
    requires pat != [] && pat[0] !in a
    ensures Replace(a + pat + b, pat, sub) == a + sub + Replace(b, pat, sub)
  {
    var s := a + pat + b;
    if a == [] {
      assert s[..|pat|] == pat && s[|pat|..] == b;
    } else {
      assert s[0] == a[0] && a[0] != pat[0];
      assert s[..|pat|][0] == s[0];
      assert s[1..] == a[1..] + pat + b;
      ReplaceFirst(a[1..], pat, b, sub);
      assert Replace(s, pat, sub) == [a[0]] + (a[1..] + sub + Replace(b, pat, sub));
    }
  }

  lemma {:induction false} ReplaceNothing(s: string, pat: string, sub: string)
    requires pat != [] && pat[0] !in s
    ensures Replace(s, pat, sub) == s
  {
    if |s| >= |pat| {
      assert s[..|pat|][0] == s[0];
      ReplaceNothing(s[1..], pat, sub);
    }
  }

  lemma {:induction false} ReplaceRemoves(s: string, c: char, d: char)
    requires c != d
    ensures c !in Replace(s, [c], [d])
  {
    if s != [] {
      ReplaceRemoves(s[1..], c, d);
      assert s[..1] == [s[0]];
    }
  }

  lemma {:induction false} ReplaceBringsNoOther(s: string, c: char, d: char, x: char)
    requires x !in s && x != d
    ensures x !in Replace(s, [c], [d])
  {
    if s != [] {
      assert s == [s[0]] + s[1..];
      ReplaceBringsNoOther(s[1..], c, d, x);
    }
  }

  lemma {:induction false} ContainsCharacters(s: string, sub: string, c: char)
    requires Contains(s, sub) && c in sub
    ensures c in s
  {
    if !(sub <= s) {
      ContainsCharacters(s[1..], sub, c);
    }
  }

  // ---------------------------------------------------------------------------------------------
  // Expanding tabs
  // ---------------------------------------------------------------------------------------------

  lemma {:induction false} ExpandConcat(a: string, b: string, col: nat)
    ensures ExpandTabs(a + b, col) == ExpandTabs(a, col) + ExpandTabs(b, Column(a, col))
  {
    if a == [] {
      assert a + b == b;
    } else {
      hide Shown, NextColumn;
      assert (a + b)[1..] == a[1..] + b;
      ExpandConcat(a[1..], b, NextColumn(a[0], col));
      assert ExpandTabs(a + b, col) == Shown(a[0], col) + ExpandTabs(a[1..] + b, NextColumn(a[0], col));
    }
  }

  lemma {:induction false} ExpandLeavesNoTab(s: string, col: nat)
    ensures '\t' !in ExpandTabs(s, col)
    ensures '\t' !in s ==> ExpandTabs(s, col) == s
  {
    if s != [] {
      ExpandLeavesNoTab(s[1..], NextColumn(s[0], col));
      hide NextColumn;
      assert '\t' !in Shown(s[0], col);
      assert s == [s[0]] + s[1..];
    }
  }

  lemma {:induction false} ExpandKeepsSpaces(s: string, col: nat)
    requires All(IsSpace, s)
    ensures All(IsSpace, ExpandTabs(s, col))
  {
    if s != [] {
      ExpandKeepsSpaces(s[1..], NextColumn(s[0], col));
      hide NextColumn;
      assert All(IsSpace, Shown(s[0], col));
    }
  }

  lemma PrependKeepsLine(p: string, s: string)
    requires '\n' !in p && IsLine(s)
    ensures IsLine(p + s) && (Ended(p + s) <==> Ended(s))
  {
  }

  lemma {:induction false} ExpandKeepsLine(s: string, col: nat)
    requires IsLine(s)
    ensures IsLine(ExpandTabs(s, col)) && (Ended(ExpandTabs(s, col)) <==> Ended(s))
  {
    var next := NextColumn(s[0], col);
    if |s| == 1 {
      assert s[1..] == [];
      assert ExpandTabs(s, col) == Shown(s[0], col);
    } else {
      assert s[0] != '\n';
      ExpandKeepsLine(s[1..], next);
      PrependKeepsLine(Shown(s[0], col), ExpandTabs(s[1..], next));
    }
  }

  /** Expanding the tabs of a line whose stripped text has none only changes the padding. */
  lemma ExpandKeepsStripped(s: string)
    requires Strip(IsSpace, s) != [] && '\t' !in Strip(IsSpace, s)
    ensures Strip(IsSpace, ExpandTabs(s, 0)) == Strip(IsSpace, s)
  {
    var a, b := StripSplits(IsSpace, s);
    var x := Strip(IsSpace, s);
    ExpandConcat(a + x, b, 0);
    ExpandConcat(a, x, 0);
    ExpandLeavesNoTab(x, Column(a, 0));
    ExpandKeepsSpaces(a, 0);
    ExpandKeepsSpaces(b, Column(a + x, 0));
    StripPadded(IsSpace, ExpandTabs(a, 0), x, ExpandTabs(b, Column(a + x, 0)));
  }

  // ---------------------------------------------------------------------------------------------
  // Files
  // ---------------------------------------------------------------------------------------------

  /** `f.readlines()` on a file with that text. */
  function ReadLines(content: string): seq<string> {
    ReadFrom([], content)
  }

  function ReadFrom(line: string, rest: string): seq<string>
    decreases |rest|
  {
    if rest == [] then (if line == [] then [] else [line])
    else if rest[0] == '\n' then [line + "\n"] + ReadFrom([], rest[1..])
    else ReadFrom(line + [rest[0]], rest[1..])
  }

  /** `f.writelines(lines)`. */
  function Write(lines: seq<string>): string {
    if lines == [] then [] else lines[0] + Write(lines[1..])
  }

  /** Every line is a line, and all but the last are ended. */
  ghost predicate AreLines(lines: seq<string>) {
    && (forall i :: 0 <= i < |lines| ==> IsLine(lines[i]))
    && (forall i :: 0 <= i < |lines| - 1 ==> Ended(lines[i]))
  }

  lemma ConsLines(l: string, lines: seq<string>)
    requires IsLine(l) && Ended(l) && AreLines(lines)
    ensures AreLines([l] + lines)
  {
  }

  lemma {:induction false} ReadYieldsLines(line: string, rest: string)
    requires '\n' !in line
    ensures AreLines(ReadFrom(line, rest)) && Write(ReadFrom(line, rest)) == line + rest
    decreases |rest|
  {
    if rest == [] {
    } else if rest[0] == '\n' {
      ReadYieldsLines([], rest[1..]);
      ConsLines(line + "\n", ReadFrom([], rest[1..]));
      assert Write(ReadFrom(line, rest)) == line + "\n" + rest[1..];
      assert line + "\n" + rest[1..] == line + rest;
    } else {
      ReadYieldsLines(line + [rest[0]], rest[1..]);
      assert line + [rest[0]] + rest[1..] == line + rest;
    }
  }

  /** Reading a text and writing it back is the identity. */
  lemma ReadThenWrite(content: string)
    ensures AreLines(ReadLines(content)) && Write(ReadLines(content)) == content
  {
    ReadYieldsLines([], content);
  }

  lemma {:induction false} ReadOneLine(done: string, x: string, rest: string)
    requires '\n' !in done && '\n' !in x
    ensures ReadFrom(done, x + "\n" + rest) == [done + x + "\n"] + ReadFrom([], rest)
    ensures x != [] || done != [] ==> ReadFrom(done, x) == [done + x]
    decreases |x|
  {
    if x == [] {
      assert (x + "\n" + rest)[1..] == rest;
      assert done + x == done;
    } else {
      ReadOneLine(done + [x[0]], x[1..], rest);
      assert (x + "\n" + rest)[1..] == x[1..] + "\n" + rest;
      assert done + [x[0]] + x[1..] == done + x;
    }
  }

  /** Reading back what was written gives the same lines. */
  lemma {:induction false} WriteThenRead(lines: seq<string>)
    requires AreLines(lines)
    ensures ReadLines(Write(lines)) == lines
  {
    if lines != [] {
      var l := lines[0];
      WriteThenRead(lines[1..]);
      if Ended(l) {
        var x := l[..|l| - 1];
        assert l == x + "\n";
        ReadOneLine([], x, Write(lines[1..]));
        assert x + "\n" + Write(lines[1..]) == Write(lines);
        assert [] + x + "\n" == l;
      } else {
        assert lines[1..] == [];
        assert '\n' !in l;
        assert Write(lines[1..]) == [];
        assert Write(lines) == l;
        assert [] + l == l;
        assert lines == [l];
        ReadOneLine([], l, []);
      }
    }
  }
}
