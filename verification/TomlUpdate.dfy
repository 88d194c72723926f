/** Rewriting keys of a sectioned configuration text. */
module TomlUpdate {
  import opened Options

  // ----- text and lines

  predicate InRanges(c: char, ranges: seq<(char, char)>) {
    ranges != [] && (ranges[0].0 <= c <= ranges[0].1 || InRanges(c, ranges[1..]))
  }

  const BREAKS: seq<(char, char)> := [
    ('\U{0A}', '\U{0D}'), ('\U{1C}', '\U{1E}'), ('\U{85}', '\U{85}'), ('\U{2028}', '\U{2029}')
  ]

  const SPACES: seq<(char, char)> := [
    ('\U{09}', '\U{0D}'), ('\U{1C}', '\U{20}'), ('\U{85}', '\U{85}'), ('\U{A0}', '\U{A0}'), ('\U{1680}', '\U{1680}'),
    ('\U{2000}', '\U{200A}'), ('\U{2028}', '\U{2029}'), ('\U{202F}', '\U{202F}'), ('\U{205F}', '\U{205F}'),
    ('\U{3000}', '\U{3000}')
  ]

  /** Characters that end a line. */
  predicate IsBreak(c: char) {
    InRanges(c, BREAKS)
  }

  predicate IsSpace(c: char) {
    InRanges(c, SPACES)
  }

  lemma {:induction false} AboveRanges(c: char, ranges: seq<(char, char)>)
    requires forall k :: 0 <= k < |ranges| ==> !(ranges[k].0 <= c <= ranges[k].1)
    ensures !InRanges(c, ranges)
  {
    if ranges != [] {
      AboveRanges(c, ranges[1..]);
    }
  }

  /** Printable characters are neither space nor break; a line feed is both. */
  lemma {:induction false} CharFacts(c: char)
    ensures ' ' < c <= '~' ==> !IsSpace(c)
    ensures ' ' <= c <= '~' ==> !IsBreak(c)
    ensures IsSpace(' ') && IsSpace('\n') && IsBreak('\n')
  {
    if ' ' < c <= '~' {
      AboveRanges(c, SPACES);
    }
    if ' ' <= c <= '~' {
      AboveRanges(c, BREAKS);
    }
    assert InRanges(' ', SPACES[1..]);
  }

  predicate OneLine(s: string) {
    forall c :: c in s ==> !IsBreak(c)
  }

  predicate AllOneLine(ls: seq<string>) {
    forall l :: l in ls ==> OneLine(l)
  }

  /** The length of the first line. */
  function FirstBreak(t: string): (n: nat)
    ensures n <= |t| && (forall i :: 0 <= i < n ==> !IsBreak(t[i])) && (n < |t| ==> IsBreak(t[n]))
  {
    if t == "" || IsBreak(t[0]) then 0 else 1 + FirstBreak(t[1..])
  }

  /** The lines of a text; a carriage return and a line feed end a line together. */
  function SplitLines(t: string): (ls: seq<string>)
    ensures AllOneLine(ls)
    decreases |t|
  {
    if t == "" then []
    else
      var n := FirstBreak(t);
      var skip := if n + 1 < |t| && t[n] == '\r' && t[n + 1] == '\n' then n + 2 else if n < |t| then n + 1 else n;
      [t[..n]] + SplitLines(t[skip..])
  }

  function Join(ls: seq<string>): string {
    if ls == [] then "" else if |ls| == 1 then ls[0] else ls[0] + "\n" + Join(ls[1..])
  }

  function StripRight(s: string): (r: string)
    ensures r <= s && (r != "" ==> !IsSpace(r[|r| - 1]))
  {
    if s != "" && IsSpace(s[|s| - 1]) then StripRight(s[..|s| - 1]) else s
  }

  function StripLeft(s: string): string {
    if s != "" && IsSpace(s[0]) then StripLeft(s[1..]) else s
  }

  function Strip(s: string): string {
    StripLeft(StripRight(s))
  }

  predicate Blank(l: string) {
    StripRight(l) == ""
  }

  /** Lines without the blank ones at the end and without space after the last. */
  function Trimmed(ls: seq<string>): seq<string> {
    if ls == [] then []
    else if Blank(ls[|ls| - 1]) then Trimmed(ls[..|ls| - 1])
    else ls[..|ls| - 1] + [StripRight(ls[|ls| - 1])]
  }

  lemma {:induction false} FirstBreakIs(t: string, n: nat)
    requires n <= |t| && (forall i :: 0 <= i < n ==> !IsBreak(t[i])) && (n < |t| ==> IsBreak(t[n]))
    ensures FirstBreak(t) == n
  {
    var m := FirstBreak(t);
    assert m < |t| ==> IsBreak(t[m]);
    assert n < |t| ==> IsBreak(t[n]);
  }

  /** A line feed ends the first line. */
  lemma {:induction false} SplitFirst(l: string, rest: string)
    requires OneLine(l)
    ensures SplitLines(l + "\n" + rest) == [l] + SplitLines(rest)
  {
    var t := l + "\n" + rest;
    CharFacts('\n');
    forall i | 0 <= i < |l| ensures !IsBreak(t[i]) {
      assert t[i] == l[i] && l[i] in l;
    }
    assert t[|l|] == '\n';
    FirstBreakIs(t, |l|);
    assert t[..|l|] == l && t[|l| + 1..] == rest;
  }

  lemma {:induction false} JoinFirst(ls: seq<string>)
    requires |ls| > 1
    ensures Join(ls) + "\n" == ls[0] + "\n" + (Join(ls[1..]) + "\n")
  {
    var l, rest := ls[0] + "\n", Join(ls[1..]);
    assert (l + rest) + "\n" == l + (rest + "\n");
  }

  /** Splitting undoes joining. */
  lemma {:induction false} SplitJoined(ls: seq<string>)
    requires ls != [] && AllOneLine(ls)
    ensures SplitLines(Join(ls) + "\n") == ls
  {
    assert ls[0] in ls;
    if |ls| == 1 {
      SplitFirst(ls[0], "");
      assert ls[0] + "\n" + "" == ls[0] + "\n";
      assert ls == [ls[0]];
    } else {
      assert forall l :: l in ls[1..] ==> l in ls;
      SplitJoined(ls[1..]);
      SplitFirst(ls[0], Join(ls[1..]) + "\n");
      JoinFirst(ls);
      assert ls == [ls[0]] + ls[1..];
    }
  }

  lemma {:induction false} JoinLast(ls: seq<string>)
    requires |ls| > 1
    ensures Join(ls) == Join(ls[..|ls| - 1]) + "\n" + ls[|ls| - 1]
  {
    if |ls| > 2 {
      JoinLast(ls[1..]);
      assert ls[1..][..|ls| - 2] == ls[..|ls| - 1][1..];
    } else {
      assert ls[1..] == [ls[1]] && ls[..1] == [ls[0]];
    }
  }

  lemma {:induction false} StripRightOfSum(a: string, b: string)
    ensures StripRight(a + b) == if Blank(b) then StripRight(a) else a + StripRight(b)
  {
    if b == "" {
      assert a + b == a;
    } else {
      assert (a + b)[..|a + b| - 1] == a + b[..|b| - 1];
      if IsSpace(b[|b| - 1]) {
        StripRightOfSum(a, b[..|b| - 1]);
      }
    }
  }

  /** Stripping the end of a text trims its lines. */
  lemma {:induction false} StripJoined(ls: seq<string>)
    ensures StripRight(Join(ls)) == Join(Trimmed(ls))
  {
    if |ls| == 1 {
      if Blank(ls[0]) {
        assert Trimmed(ls) == Trimmed([]) by { assert ls[..0] == []; }
      } else {
        assert Trimmed(ls) == [StripRight(ls[0])];
      }
    } else if |ls| > 1 {
      var front, last := ls[..|ls| - 1], ls[|ls| - 1];
      JoinLast(ls);
      StripRightOfSum(Join(front) + "\n", last);
      StripRightOfSum(Join(front), "\n");
      StripJoined(front);
      if !Blank(last) {
        JoinLast(front + [StripRight(last)]);
        assert (front + [StripRight(last)])[..|ls| - 1] == front;
      } else {
        assert Blank("\n") by { assert StripRight("\n") == StripRight(""); }
      }
    }
  }

  lemma {:induction false} TrimmedOneLine(ls: seq<string>)
    requires AllOneLine(ls)
    ensures AllOneLine(Trimmed(ls))
  {
    if ls != [] {
      var front, last := ls[..|ls| - 1], ls[|ls| - 1];
      assert forall l :: l in front ==> l in ls;
      assert last in ls;
      TrimmedOneLine(front);
      forall c | c in StripRight(last) ensures c in last {}
    }
  }

  // ----- sections

  const ROOT := "__root__"

  datatype Section = Section(name: string, lines: seq<string>)

  predicate IsHeader(l: string) {
    var t := Strip(l);
    |t| > 2 && t[0] == '[' && t[|t| - 1] == ']'
  }

  function HeaderName(l: string): string
    requires IsHeader(l)
  {
    var t := Strip(l);
    t[1..|t| - 1]
  }

  function Names(secs: seq<Section>): seq<string> {
    seq(|secs|, k requires 0 <= k < |secs| => secs[k].name)
  }

  function IndexOf(secs: seq<Section>, name: string): (k: nat)
    ensures k <= |secs| && (k < |secs| ==> secs[k].name == name) && (forall j :: 0 <= j < k ==> secs[j].name != name)
  {
    if secs == [] || secs[0].name == name then 0 else 1 + IndexOf(secs[1..], name)
  }

  /** The sections with a line added to one of them, which is made if it is new. */
  function Appended(secs: seq<Section>, name: string, line: string): seq<Section> {
    var k := IndexOf(secs, name);
    if k < |secs| then secs[k := Section(name, secs[k].lines + [line])] else secs + [Section(name, [line])]
  }

  datatype Splitting = Splitting(sections: seq<Section>, current: string)

  function SplitStep(p: Splitting, line: string): Splitting {
    var name := if IsHeader(line) then HeaderName(line) else p.current;
    Splitting(Appended(p.sections, name, line), name)
  }

  function Split(lines: seq<string>): Splitting {
    if lines == [] then Splitting([Section(ROOT, [])], ROOT)
    else SplitStep(Split(lines[..|lines| - 1]), lines[|lines| - 1])
  }

  method SplitSections(text: string) returns (sections: seq<Section>)
    ensures sections == Split(SplitLines(text)).sections
  {
    var lines := SplitLines(text);
    sections := [Section(ROOT, [])];
    var current := ROOT;
    for i := 0 to |lines|
      invariant Splitting(sections, current) == Split(lines[..i])
    {
      assert lines[..i + 1][..i] == lines[..i];
      if IsHeader(lines[i]) {
        current := HeaderName(lines[i]);
      }
      sections := Appended(sections, current, lines[i]);
    }
    assert lines[..|lines|] == lines;
  }

  /** All headers in a section's lines have its name, and every section but the root begins with one. */
  predicate HeadersOf(s: Section) {
    forall i :: 0 <= i < |s.lines| && IsHeader(s.lines[i]) ==> HeaderName(s.lines[i]) == s.name
  }

  predicate Begins(s: Section) {
    s.lines != [] && IsHeader(s.lines[0])
  }

  /** The shape of split texts. */
  ghost predicate Shaped(secs: seq<Section>) {
    && secs != [] && secs[0].name == ROOT
    && (forall i, j :: 0 <= i < j < |secs| ==> secs[i].name != secs[j].name)
    && (forall i :: 0 <= i < |secs| ==> HeadersOf(secs[i]))
    && (forall i :: 0 < i < |secs| ==> Begins(secs[i]))
  }

  lemma {:induction false} IndexIs(secs: seq<Section>, k: nat)
    requires k < |secs| && forall i, j :: 0 <= i < j < |secs| ==> secs[i].name != secs[j].name
    ensures IndexOf(secs, secs[k].name) == k
  {
  }

  /** Splitting yields sections of that shape, and the current one is among them. */
  lemma {:induction false} SplitShaped(lines: seq<string>)
    ensures var p := Split(lines);
            Shaped(p.sections) && IndexOf(p.sections, p.current) < |p.sections|
  {
    if lines == [] {
      assert Split(lines).sections[0].name == ROOT;
    } else {
      SplitShaped(lines[..|lines| - 1]);
      StepShaped(Split(lines[..|lines| - 1]), lines[|lines| - 1]);
    }
  }

  /** A line is added to a section that is there. */
  lemma {:induction false} AppendedThere(secs: seq<Section>, k: nat, line: string)
    requires Shaped(secs) && k < |secs| && (IsHeader(line) ==> HeaderName(line) == secs[k].name)
    ensures Appended(secs, secs[k].name, line) == secs[k := Section(secs[k].name, secs[k].lines + [line])]
    ensures Shaped(Appended(secs, secs[k].name, line)) && IndexOf(Appended(secs, secs[k].name, line), secs[k].name) == k
  {
    IndexIs(secs, k);
    var q := secs[k := Section(secs[k].name, secs[k].lines + [line])];
    assert Names(q) == Names(secs);
    SameNames(secs, q, k);
  }

  lemma {:induction false} SameNames(secs: seq<Section>, q: seq<Section>, k: nat)
    requires k < |secs| == |q| && Names(q) == Names(secs)
    requires forall i, j :: 0 <= i < j < |secs| ==> secs[i].name != secs[j].name
    ensures forall i, j :: 0 <= i < j < |q| ==> q[i].name != q[j].name
    ensures IndexOf(q, secs[k].name) == k && forall i :: 0 <= i < |q| ==> q[i].name == secs[i].name
  {
    forall i | 0 <= i < |q| ensures q[i].name == secs[i].name {
      assert Names(q)[i] == Names(secs)[i];
    }
    IndexIs(q, k);
  }

  /** A header of a new name makes a section. */
  lemma {:induction false} AppendedNew(secs: seq<Section>, line: string)
    requires Shaped(secs) && IsHeader(line) && IndexOf(secs, HeaderName(line)) == |secs|
    ensures Appended(secs, HeaderName(line), line) == secs + [Section(HeaderName(line), [line])]
    ensures Shaped(secs + [Section(HeaderName(line), [line])])
    ensures IndexOf(secs + [Section(HeaderName(line), [line])], HeaderName(line)) == |secs|
  {
    var q := secs + [Section(HeaderName(line), [line])];
    forall i, j | 0 <= i < j < |q| ensures q[i].name != q[j].name {
      assert q[i] == secs[i];
    }
    IndexIs(q, |secs|);
  }

  lemma {:induction false} StepShaped(p: Splitting, line: string)
    requires Shaped(p.sections) && IndexOf(p.sections, p.current) < |p.sections|
    ensures var q := SplitStep(p, line);
            Shaped(q.sections) && IndexOf(q.sections, q.current) < |q.sections|
  {
    var name := if IsHeader(line) then HeaderName(line) else p.current;
    var k := IndexOf(p.sections, name);
    if k < |p.sections| {
      AppendedThere(p.sections, k, line);
    } else {
      AppendedNew(p.sections, line);
    }
  }

  function Flatten(secs: seq<Section>): seq<string> {
    if secs == [] then [] else Flatten(secs[..|secs| - 1]) + secs[|secs| - 1].lines
  }

  /** The sections up to the first `n` lines of the last one. */
  function UpTo(secs: seq<Section>, n: nat): seq<Section>
    requires secs != [] && n <= |secs[|secs| - 1].lines|
  {
    var last := secs[|secs| - 1];
    secs[|secs| - 1 := Section(last.name, last.lines[..n])]
  }

  lemma {:induction false} PrefixShaped(s: Section, n: nat)
    requires HeadersOf(s) && n <= |s.lines|
    ensures HeadersOf(Section(s.name, s.lines[..n])) && (n > 0 && Begins(s) ==> Begins(Section(s.name, s.lines[..n])))
  {
    var p := s.lines[..n];
    assert forall i :: 0 <= i < n ==> p[i] == s.lines[i];
  }

  /** Shortening the last section keeps the shape as long as its header stays. */
  lemma {:induction false} UpToShaped(secs: seq<Section>, n: nat)
    requires Shaped(secs) && n <= |secs[|secs| - 1].lines| && (n > 0 || |secs| == 1)
    ensures Shaped(UpTo(secs, n))
  {
    var q, last := UpTo(secs, n), |secs| - 1;
    assert Names(q) == Names(secs);
    SameNames(secs, q, 0);
    PrefixShaped(secs[last], n);
    forall i | 0 <= i < |q| ensures HeadersOf(q[i]) && (i > 0 ==> Begins(q[i])) {
      assert HeadersOf(secs[i]) && (i < last ==> q[i] == secs[i]);
    }
  }

  lemma {:induction false} SplitOneMore(lines: seq<string>, line: string)
    ensures Split(lines + [line]) == SplitStep(Split(lines), line)
  {
    assert (lines + [line])[..|lines|] == lines;
  }

  lemma {:induction false} UpToNext(secs: seq<Section>, n: nat)
    requires secs != [] && 0 < n <= |secs[|secs| - 1].lines|
    ensures var (last, u) := (secs[|secs| - 1], UpTo(secs, n - 1));
            && u[|secs| - 1] == Section(last.name, last.lines[..n - 1])
            && UpTo(secs, n) == u[|secs| - 1 := Section(last.name, last.lines[..n - 1] + [last.lines[n - 1]])]
  {
    var last := secs[|secs| - 1];
    assert last.lines[..n] == last.lines[..n - 1] + [last.lines[n - 1]];
  }

  /** The next line of the last section goes there. */
  lemma {:induction false} NextLine(secs: seq<Section>, n: nat)
    requires Shaped(secs) && 0 < n <= |secs[|secs| - 1].lines| && (n > 1 || |secs| == 1)
    ensures var last := secs[|secs| - 1];
            SplitStep(Splitting(UpTo(secs, n - 1), last.name), last.lines[n - 1]) == Splitting(UpTo(secs, n), last.name)
  {
    var last, u := secs[|secs| - 1], UpTo(secs, n - 1);
    UpToNext(secs, n);
    LineFits(secs, n - 1);
    OwnLine(u, last.name, last.lines[n - 1]);
    assert IndexOf(u, last.name) == |secs| - 1 by {
      UpToShaped(secs, n - 1);
      AtIndex(u, |secs| - 1);
    }
  }

  lemma {:induction false} OwnLine(secs: seq<Section>, name: string, line: string)
    requires IsHeader(line) ==> HeaderName(line) == name
    ensures SplitStep(Splitting(secs, name), line) == Splitting(Appended(secs, name, line), name)
  {
  }

  lemma {:induction false} AtIndex(secs: seq<Section>, k: nat)
    requires Shaped(secs) && k < |secs|
    ensures IndexOf(secs, secs[k].name) == k
  {
    IndexIs(secs, k);
  }

  lemma {:induction false} LineFits(secs: seq<Section>, n: nat)
    requires Shaped(secs) && n < |secs[|secs| - 1].lines|
    ensures var last := secs[|secs| - 1];
            IsHeader(last.lines[n]) ==> HeaderName(last.lines[n]) == last.name
  {
    assert HeadersOf(secs[|secs| - 1]);
  }

  /** The first line of a section that is not the root is its header and makes it. */
  lemma {:induction false} FirstLine(secs: seq<Section>, current: string)
    requires Shaped(secs) && |secs| > 1
    ensures var last := secs[|secs| - 1];
            SplitStep(Splitting(secs[..|secs| - 1], current), last.lines[0]) == Splitting(UpTo(secs, 1), last.name)
  {
    var front, last := secs[..|secs| - 1], secs[|secs| - 1];
    NewName(secs);
    AppendedNew(front, last.lines[0]);
    assert last.lines[..1] == [last.lines[0]];
    assert UpTo(secs, 1) == front + [Section(last.name, [last.lines[0]])];
  }

  lemma {:induction false} OneMoreLine(a: seq<string>, ls: seq<string>, n: nat)
    requires 0 < n <= |ls|
    ensures a + ls[..n] == (a + ls[..n - 1]) + [ls[n - 1]]
  {
  }

  /** Splitting the lines of sections one after another, line by line of the last one. */
  lemma {:induction false} SplitUpTo(secs: seq<Section>, n: nat)
    requires Shaped(secs) && n <= |secs[|secs| - 1].lines| && (n > 0 || |secs| == 1)
    ensures var last := secs[|secs| - 1];
            Split(Flatten(secs[..|secs| - 1]) + last.lines[..n]) == Splitting(UpTo(secs, n), last.name)
    decreases |secs|, n
  {
    var front, last := secs[..|secs| - 1], secs[|secs| - 1];
    if n == 0 {
      assert front == [] && Flatten(front) + last.lines[..0] == [];
      assert UpTo(secs, 0) == [Section(ROOT, [])];
    } else {
      OneMoreLine(Flatten(front), last.lines, n);
      SplitOneMore(Flatten(front) + last.lines[..n - 1], last.lines[n - 1]);
      if n == 1 && |secs| > 1 {
        NewName(secs);
        SplitFlat(front);
        assert Flatten(front) + last.lines[..0] == Flatten(front);
        FirstLine(secs, Split(Flatten(front)).current);
      } else {
        SplitUpTo(secs, n - 1);
        NextLine(secs, n);
      }
    }
  }

  lemma {:induction false} NewName(secs: seq<Section>)
    requires Shaped(secs) && |secs| > 1
    ensures Shaped(secs[..|secs| - 1]) && IndexOf(secs[..|secs| - 1], secs[|secs| - 1].name) == |secs| - 1
  {
    var front := secs[..|secs| - 1];
    assert forall i :: 0 <= i < |front| ==> front[i] == secs[i];
  }

  /** Splitting undoes flattening. */
  lemma {:induction false} SplitFlat(secs: seq<Section>)
    requires Shaped(secs)
    ensures Split(Flatten(secs)).sections == secs
    decreases |secs|, |secs[|secs| - 1].lines| + 1
  {
    var last := secs[|secs| - 1];
    SplitUpTo(secs, |last.lines|);
    assert last.lines[..|last.lines|] == last.lines;
    assert UpTo(secs, |last.lines|) == secs;
  }

  // ----- keys and values

  /** Flags and integers have their own formats; every other value is written as the text that `str` makes of it. */
  datatype Value = Flag(b: bool) | Number(n: int) | Text(s: string)

  /** A dictionary in its own order. */
  datatype Entry = Entry(key: string, value: Value)

  datatype SectionUpdate = SectionUpdate(name: string, values: seq<Entry>)

  function Digits(n: nat): (r: string)
    ensures r != "" && forall c :: c in r ==> '0' <= c <= '9'
  {
    (if n < 10 then "" else Digits(n / 10)) + [('0' as int + n % 10) as char]
  }

  function Decimal(n: int): string {
    if n < 0 then "-" + Digits(-n) else Digits(n)
  }

  /** Backslashes and quotes are escaped. */
  function Escaped(s: string): string {
    if s == "" then "" else EscapedChar(s[0]) + Escaped(s[1..])
  }

  function EscapedChar(c: char): string {
    if c == '\\' then "\\\\" else if c == '"' then "\\\"" else [c]
  }

  function ValueText(v: Value): string {
    match v
    case Flag(b) => if b then "true" else "false"
    case Number(n) => Decimal(n)
    case Text(s) => "\"" + Escaped(s) + "\""
  }

  function FormatValue(key: string, v: Value): string {
    key + " = " + ValueText(v)
  }

  function FirstEquals(t: string): (n: nat)
    ensures n <= |t| && (forall i :: 0 <= i < n ==> t[i] != '=') && (n < |t| ==> t[n] == '=')
  {
    if t == "" || t[0] == '=' then 0 else 1 + FirstEquals(t[1..])
  }

  /** The key of a line that sets one. */
  function KeyOf(l: string): Option<string> {
    var t := Strip(l);
    if '=' in t && t[0] != '#' then Some(Strip(t[..FirstEquals(t)])) else None
  }

  /** A key that a line can hold and that reads back. */
  predicate CleanKey(k: string) {
    Strip(k) == k && '=' !in k && OneLine(k) && (k == "" || k[0] != '#')
  }

  predicate CleanValue(v: Value) {
    v.Text? ==> OneLine(v.s)
  }

  lemma {:induction false} StripLeftSolid(s: string)
    ensures StripLeft(s) == s <==> s == "" || !IsSpace(s[0])
    ensures |StripLeft(s)| <= |s|
  {
    if s != "" && IsSpace(s[0]) {
      StripLeftSolid(s[1..]);
    }
  }

  /** Text between solid characters is not stripped. */
  lemma {:induction false} StripSolid(s: string)
    requires s != "" && !IsSpace(s[0]) && !IsSpace(s[|s| - 1])
    ensures Strip(s) == s && StripRight(s) == s
  {
    StripLeftSolid(s);
  }

  lemma {:induction false} CleanEnds(k: string)
    requires k != "" && Strip(k) == k
    ensures !IsSpace(k[0]) && !IsSpace(k[|k| - 1])
  {
    StripLeftSolid(StripRight(k));
    assert |Strip(k)| <= |StripRight(k)| <= |k|;
    assert StripRight(k) == k;
    StripLeftSolid(k);
  }

  lemma {:induction false} ValueEnds(v: Value)
    ensures var t := ValueText(v);
            t != "" && !IsSpace(t[|t| - 1]) && t[|t| - 1] != ']'
  {
    var t := ValueText(v);
    match v
    case Flag(b) =>
      CharFacts('e');
      assert t[|t| - 1] == 'e';
    case Number(n) =>
      var d := Digits(if n < 0 then -n else n);
      assert t[|t| - 1] == d[|d| - 1] && d[|d| - 1] in d;
      CharFacts(d[|d| - 1]);
    case Text(s) =>
      CharFacts('"');
      assert t[|t| - 1] == '"';
  }

  /** A formatted line without its leading space, which only an empty key leaves. */
  function Solid(k: string, v: Value): string {
    if k == "" then "= " + ValueText(v) else FormatValue(k, v)
  }

  lemma {:induction false} StripSpace(t: string)
    requires t != "" && !IsSpace(t[0]) && !IsSpace(t[|t| - 1])
    ensures Strip(" " + t) == t && StripRight(" " + t) == " " + t
  {
    var l := " " + t;
    CharFacts(' ');
    StripLeftSolid(t);
    assert l[|l| - 1] == t[|t| - 1] && l[1..] == t;
  }

  lemma {:induction false} EqualsStrips(text: string)
    requires text != "" && !IsSpace(text[|text| - 1])
    ensures var t := "= " + text;
            Strip(" " + t) == t && StripRight(" " + t) == " " + t && t[|t| - 1] == text[|text| - 1]
  {
    CharFacts('=');
    StripSpace("= " + text);
  }

  lemma {:induction false} EmptyKeyStrips(v: Value)
    ensures var (l, t) := (FormatValue("", v), "= " + ValueText(v));
            Strip(l) == t && StripRight(l) == l && t[|t| - 1] != ']'
  {
    ValueEnds(v);
    EqualsStrips(ValueText(v));
    assert FormatValue("", v) == " " + ("= " + ValueText(v));
  }

  lemma {:induction false} FormattedStrips(k: string, v: Value)
    requires CleanKey(k)
    ensures var (l, t) := (FormatValue(k, v), Solid(k, v));
            Strip(l) == t && StripRight(l) == l && t != "" && t[|t| - 1] != ']' && t[0] != '#'
  {
    if k == "" {
      EmptyKeyStrips(v);
    } else {
      var l := FormatValue(k, v);
      CleanEnds(k);
      ValueEnds(v);
      assert l[0] == k[0] && l[|l| - 1] == ValueText(v)[|ValueText(v)| - 1];
      StripSolid(l);
    }
  }

  /** What stands before the first `=` of a formatted line. */
  lemma {:induction false} FormattedEquals(k: string, v: Value)
    requires CleanKey(k)
    ensures var t := Solid(k, v);
            '=' in t && FirstEquals(t) == (if k == "" then 0 else |k| + 1)
            && t[..FirstEquals(t)] == if k == "" then "" else k + " "
  {
    var t := Solid(k, v);
    if k != "" {
      assert t[|k| + 1] == '=' && t[|k|] == ' ';
      forall i | 0 <= i <= |k| ensures t[i] != '=' {
        assert i < |k| ==> t[i] == k[i] && k[i] in k;
      }
      assert t[..|k| + 1] == k + " ";
    } else {
      assert t[0] == '=';
    }
  }

  /** A formatted line reads back its key, is no header and has no space at its end. */
  lemma {:induction false} FormattedKey(k: string, v: Value)
    requires CleanKey(k)
    ensures var l := FormatValue(k, v);
            KeyOf(l) == Some(k) && !IsHeader(l) && StripRight(l) == l && !Blank(l)
  {
    FormattedStrips(k, v);
    FormattedEquals(k, v);
    StripsBack(k);
  }

  /** The key is what stands before the `=`, without the space. */
  lemma {:induction false} StripsBack(k: string)
    requires Strip(k) == k
    ensures Strip(if k == "" then "" else k + " ") == k
  {
    if k != "" {
      CleanEnds(k);
      StripRightOfSum(k, " ");
      assert Blank(" ") by { assert StripRight(" ") == StripRight(""); }
      StripSolid(k);
    }
  }

  // ----- rewriting one section

  function Find(values: seq<Entry>, key: string): (k: nat)
    ensures k <= |values| && (k < |values| ==> values[k].key == key)
    ensures forall j :: 0 <= j < k ==> values[j].key != key
  {
    if values == [] || values[0].key == key then 0 else 1 + Find(values[1..], key)
  }

  /** The line sets one of the keys. */
  predicate Targeted(l: string, values: seq<Entry>) {
    KeyOf(l).Some? && Find(values, KeyOf(l).value) < |values|
  }

  function RewriteLine(l: string, values: seq<Entry>): string {
    if Targeted(l, values) then FormatValue(KeyOf(l).value, values[Find(values, KeyOf(l).value)].value) else l
  }

  function Rewritten(ls: seq<string>, values: seq<Entry>): (r: seq<string>)
    ensures |r| == |ls| && forall i :: 0 <= i < |ls| ==> r[i] == RewriteLine(ls[i], values)
  {
    seq(|ls|, i requires 0 <= i < |ls| => RewriteLine(ls[i], values))
  }

  /** Some line sets the key. */
  predicate Seen(ls: seq<string>, key: string) {
    ls != [] && (Seen(ls[..|ls| - 1], key) || KeyOf(ls[|ls| - 1]) == Some(key))
  }

  /** Lines for the first `n` keys as far as no line sets them yet. */
  function Missing(ls: seq<string>, values: seq<Entry>, n: nat): seq<string>
    requires n <= |values|
  {
    if n == 0 then []
    else
      var e := values[n - 1];
      Missing(ls, values, n - 1) + Addition(ls, e)
  }

  function Addition(ls: seq<string>, e: Entry): seq<string> {
    if Seen(ls, e.key) then [] else [FormatValue(e.key, e.value)]
  }

  function NewLines(ls: seq<string>, values: seq<Entry>): seq<string> {
    Rewritten(ls, values) + Missing(ls, values, |values|)
  }

  /** The keys that some line sets. */
  ghost predicate SeenKeys(seen: set<string>, ls: seq<string>, values: seq<Entry>) {
    forall k {:trigger k in seen} :: k in seen <==> Find(values, k) < |values| && Seen(ls, k)
  }

  lemma {:induction false} SeenStep(seen: set<string>, ls: seq<string>, l: string, values: seq<Entry>)
    requires SeenKeys(seen, ls, values)
    ensures SeenKeys(if Targeted(l, values) then seen + {KeyOf(l).value} else seen, ls + [l], values)
  {
    SeenGrows(ls, l);
  }

  lemma {:induction false} RewrittenStep(ls: seq<string>, values: seq<Entry>, i: nat)
    requires i < |ls|
    ensures ls[..i + 1] == ls[..i] + [ls[i]]
    ensures Rewritten(ls, values)[..i + 1] == Rewritten(ls, values)[..i] + [RewriteLine(ls[i], values)]
  {
  }

  method RewriteLines(ls: seq<string>, values: seq<Entry>) returns (out: seq<string>, seen: set<string>)
    ensures out == Rewritten(ls, values) && SeenKeys(seen, ls, values)
  {
    seen := {};
    out := [];
    for i := 0 to |ls|
      invariant out == Rewritten(ls, values)[..i]
      invariant SeenKeys(seen, ls[..i], values)
    {
      SeenStep(seen, ls[..i], ls[i], values);
      RewrittenStep(ls, values, i);
      out := out + [RewriteLine(ls[i], values)];
      if Targeted(ls[i], values) {
        seen := seen + {KeyOf(ls[i]).value};
      }
    }
    assert ls[..|ls|] == ls && Rewritten(ls, values)[..|ls|] == Rewritten(ls, values);
  }

  /** One more key: a line is added unless the key was seen. */
  lemma {:induction false} MissingStep(ls: seq<string>, values: seq<Entry>, seen: set<string>, n: nat, out: seq<string>)
    requires n < |values| && SeenKeys(seen, ls, values) && out == Rewritten(ls, values) + Missing(ls, values, n)
    ensures Rewritten(ls, values) + Missing(ls, values, n + 1) ==
              if values[n].key in seen then out else out + [FormatValue(values[n].key, values[n].value)]
  {
    assert Find(values, values[n].key) < |values|;
  }

  method UpdateLines(ls: seq<string>, values: seq<Entry>) returns (out: seq<string>)
    ensures out == NewLines(ls, values)
  {
    var seen;
    out, seen := RewriteLines(ls, values);
    for n := 0 to |values|
      invariant out == Rewritten(ls, values) + Missing(ls, values, n)
    {
      MissingStep(ls, values, seen, n, out);
      if values[n].key !in seen {
        out := out + [FormatValue(values[n].key, values[n].value)];
      }
    }
  }

  lemma {:induction false} SeenGrows(ls: seq<string>, l: string)
    ensures forall k {:trigger Seen(ls, k)} :: Seen(ls + [l], k) <==> Seen(ls, k) || KeyOf(l) == Some(k)
  {
    assert (ls + [l])[..|ls|] == ls;
  }

  /** Keys and values that fit on lines, each key once. */
  predicate CleanValues(values: seq<Entry>) {
    && (forall i :: 0 <= i < |values| ==> CleanKey(values[i].key) && CleanValue(values[i].value))
    && (forall i, j :: 0 <= i < j < |values| ==> values[i].key != values[j].key)
  }

  /** Every key is set by some line, and every line that sets one sets it to the value. */
  ghost predicate Settled(ls: seq<string>, values: seq<Entry>) {
    && (forall i :: 0 <= i < |ls| ==> RewriteLine(ls[i], values) == ls[i])
    && (forall k :: 0 <= k < |values| ==> Seen(ls, values[k].key))
  }

  lemma {:induction false} FindIs(values: seq<Entry>, k: nat)
    requires CleanValues(values) && k < |values|
    ensures Find(values, values[k].key) == k
  {
  }

  /** A formatted line is its own rewriting. */
  lemma {:induction false} FormattedStays(values: seq<Entry>, k: nat)
    requires CleanValues(values) && k < |values|
    ensures var l := FormatValue(values[k].key, values[k].value);
            KeyOf(l) == Some(values[k].key) && RewriteLine(l, values) == l && !IsHeader(l) && !Blank(l)
            && StripRight(l) == l && Targeted(l, values)
  {
    FormattedKey(values[k].key, values[k].value);
    FindIs(values, k);
  }

  /** Rewriting a line does not change which key it sets, and rewriting it again does nothing. */
  lemma {:induction false} RewrittenLine(l: string, values: seq<Entry>)
    requires CleanValues(values)
    ensures KeyOf(RewriteLine(l, values)) == KeyOf(l)
    ensures RewriteLine(RewriteLine(l, values), values) == RewriteLine(l, values)
    ensures Targeted(l, values) ==> !IsHeader(RewriteLine(l, values)) && !Blank(RewriteLine(l, values))
  {
    if Targeted(l, values) {
      FormattedStays(values, Find(values, KeyOf(l).value));
    }
  }

  lemma {:induction false} SeenSum(a: seq<string>, b: seq<string>, key: string)
    ensures Seen(a + b, key) <==> Seen(a, key) || Seen(b, key)
  {
    if b == [] {
      assert a + b == a;
    } else {
      SeenSum(a, b[..|b| - 1], key);
      assert (a + b)[..|a + b| - 1] == a + b[..|b| - 1];
    }
  }

  predicate IsFormatted(l: string, values: seq<Entry>) {
    exists k :: 0 <= k < |values| && l == FormatValue(values[k].key, values[k].value)
  }

  /** The lines added at the end are formatted lines. */
  lemma {:induction false} MissingFormatted(ls: seq<string>, values: seq<Entry>, n: nat, i: nat)
    requires n <= |values| && i < |Missing(ls, values, n)|
    ensures IsFormatted(Missing(ls, values, n)[i], values)
  {
    if i < |Missing(ls, values, n - 1)| {
      MissingFormatted(ls, values, n - 1, i);
    } else {
      assert Missing(ls, values, n)[i] == FormatValue(values[n - 1].key, values[n - 1].value);
    }
  }

  /** More keys add lines behind those of the first ones. */
  lemma {:induction false} MissingRest(ls: seq<string>, values: seq<Entry>, k: nat, n: nat) returns (rest: seq<string>)
    requires k <= n <= |values|
    ensures Missing(ls, values, n) == Missing(ls, values, k) + rest
    decreases n
  {
    if k == n {
      rest := [];
    } else {
      var before := MissingRest(ls, values, k, n - 1);
      rest := before + Addition(ls, values[n - 1]);
    }
  }

  /** Every key not seen is added. */
  lemma {:induction false} MissingSeen(ls: seq<string>, values: seq<Entry>, k: nat)
    requires CleanValues(values) && k < |values| && !Seen(ls, values[k].key)
    ensures Seen(Missing(ls, values, |values|), values[k].key)
  {
    FormattedStays(values, k);
    SeenGrows(Missing(ls, values, k), FormatValue(values[k].key, values[k].value));
    var rest := MissingRest(ls, values, k + 1, |values|);
    SeenSum(Missing(ls, values, k + 1), rest, values[k].key);
  }

  lemma {:induction false} SeenRewritten(ls: seq<string>, values: seq<Entry>, key: string)
    requires CleanValues(values)
    ensures Seen(Rewritten(ls, values), key) <==> Seen(ls, key)
  {
    if ls != [] {
      SeenRewritten(ls[..|ls| - 1], values, key);
      RewrittenLine(ls[|ls| - 1], values);
      assert Rewritten(ls, values)[..|ls| - 1] == Rewritten(ls[..|ls| - 1], values);
    }
  }

  /** Rewriting settles a section. */
  lemma {:induction false} NewLinesSettled(ls: seq<string>, values: seq<Entry>)
    requires CleanValues(values)
    ensures Settled(NewLines(ls, values), values)
  {
    var a, b := Rewritten(ls, values), Missing(ls, values, |values|);
    forall i | 0 <= i < |a + b| ensures RewriteLine((a + b)[i], values) == (a + b)[i] {
      if i < |a| {
        RewrittenLine(ls[i], values);
      } else {
        MissingFormatted(ls, values, |values|, i - |a|);
        var k :| 0 <= k < |values| && b[i - |a|] == FormatValue(values[k].key, values[k].value);
        FormattedStays(values, k);
      }
    }
    forall k | 0 <= k < |values| ensures Seen(a + b, values[k].key) {
      if !Seen(ls, values[k].key) {
        MissingSeen(ls, values, k);
      }
      SeenSum(a, b, values[k].key);
      SeenRewritten(ls, values, values[k].key);
    }
  }

  /** A settled section stays as it is. */
  lemma {:induction false} SettledStays(ls: seq<string>, values: seq<Entry>)
    requires Settled(ls, values)
    ensures NewLines(ls, values) == ls
  {
    NothingMissing(ls, values, |values|);
    assert Rewritten(ls, values) == ls;
  }

  lemma {:induction false} NothingMissing(ls: seq<string>, values: seq<Entry>, n: nat)
    requires n <= |values| && forall k :: 0 <= k < |values| ==> Seen(ls, values[k].key)
    ensures Missing(ls, values, n) == []
  {
    if n > 0 {
      NothingMissing(ls, values, n - 1);
    }
  }

  // ----- putting the sections together again

  /** A section's lines with a blank line at the end, unless there are none or the last one is blank. */
  function EndBlank(ls: seq<string>): seq<string> {
    if ls == [] || Blank(ls[|ls| - 1]) then ls else ls + [""]
  }

  /** The blocks one after another, a blank line between two of them unless there is one. */
  function Assembled(secs: seq<Section>): seq<string> {
    if secs == [] then []
    else
      var lines, block := Assembled(secs[..|secs| - 1]), secs[|secs| - 1].lines;
      if block == [] then lines else EndBlank(lines) + block
  }

  function Spaced(secs: seq<Section>): (r: seq<Section>)
    ensures |r| == |secs|
    ensures forall k :: 0 <= k < |secs| ==> r[k] == Section(secs[k].name, EndBlank(secs[k].lines))
  {
    seq(|secs|, k requires 0 <= k < |secs| => Section(secs[k].name, EndBlank(secs[k].lines)))
  }

  /** The lines of a text with the last section trimmed; a text of nothing still has one line. */
  function LastLines(ls: seq<string>, only: bool): seq<string> {
    var t := Trimmed(ls);
    if only && t == [] then [""] else t
  }

  /** The sections as they will be read back. */
  function Final(secs: seq<Section>): (r: seq<Section>)
    requires secs != []
    ensures |r| == |secs|
  {
    var last := secs[|secs| - 1];
    Spaced(secs[..|secs| - 1]) + [Section(last.name, LastLines(last.lines, |secs| == 1))]
  }

  lemma {:induction false} TrimmedSum(a: seq<string>, b: seq<string>)
    requires Trimmed(b) != []
    ensures Trimmed(a + b) == a + Trimmed(b)
  {
    assert (a + b)[..|a + b| - 1] == a + b[..|b| - 1];
    if Blank(b[|b| - 1]) {
      TrimmedSum(a, b[..|b| - 1]);
    } else {
      assert a + (b[..|b| - 1] + [StripRight(b[|b| - 1])]) == (a + b[..|b| - 1]) + [StripRight(b[|b| - 1])];
    }
  }

  lemma {:induction false} EndBlankSum(a: seq<string>, b: seq<string>)
    requires b != []
    ensures EndBlank(a + b) == a + EndBlank(b)
  {
    assert (a + b)[|a + b| - 1] == b[|b| - 1];
    assert (a + b) + [""] == a + (b + [""]);
  }

  /** Assembling is flattening with blank lines. */
  lemma {:induction false} AssembledIsFlat(secs: seq<Section>)
    requires forall i :: 0 < i < |secs| ==> secs[i].lines != []
    ensures secs != [] ==> Assembled(secs) == Flatten(Spaced(secs[..|secs| - 1])) + secs[|secs| - 1].lines
    ensures EndBlank(Assembled(secs)) == Flatten(Spaced(secs))
  {
    if secs != [] {
      var front, block := secs[..|secs| - 1], secs[|secs| - 1].lines;
      AssembledIsFlat(front);
      SpacedFront(secs);
      if block == [] {
        assert front == [] && Assembled(secs) == [];
      } else {
        EndBlankSum(Flatten(Spaced(front)), block);
      }
    }
  }

  lemma {:induction false} SpacedFront(secs: seq<Section>)
    requires secs != []
    ensures Flatten(Spaced(secs)) == Flatten(Spaced(secs[..|secs| - 1])) + EndBlank(secs[|secs| - 1].lines)
  {
    assert Spaced(secs)[..|secs| - 1] == Spaced(secs[..|secs| - 1]);
  }

  lemma {:induction false} TrimmedIdempotent(ls: seq<string>)
    ensures Trimmed(Trimmed(ls)) == Trimmed(ls)
    decreases |ls|
  {
    if ls != [] {
      var front, last := ls[..|ls| - 1], ls[|ls| - 1];
      if Blank(last) {
        TrimmedIdempotent(front);
      } else {
        StripRightTwice(last);
        assert (front + [StripRight(last)])[..|ls| - 1] == front;
      }
    }
  }

  lemma {:induction false} StripRightTwice(s: string)
    ensures StripRight(StripRight(s)) == StripRight(s)
  {
  }

  /** Only the last line is touched when it is not blank. */
  lemma {:induction false} LastStripped(s: Section)
    requires s.lines != [] && !Blank(s.lines[|s.lines| - 1]) && HeadersOf(s)
    ensures var t := Section(s.name, Trimmed(s.lines));
            HeadersOf(t) && (Begins(s) ==> Begins(t))
  {
    var n, t := |s.lines| - 1, Trimmed(s.lines);
    StripRightTwice(s.lines[n]);
    assert Strip(StripRight(s.lines[n])) == Strip(s.lines[n]);
    assert |t| == |s.lines| && forall i :: 0 <= i < n ==> t[i] == s.lines[i];
  }

  /** A header makes a section last through trimming. */
  lemma {:induction false} HeaderStays(s: Section)
    requires Begins(s) && HeadersOf(s)
    ensures var t := Section(s.name, Trimmed(s.lines));
            Begins(t) && HeadersOf(t)
    decreases |s.lines|
  {
    var n := |s.lines| - 1;
    if Blank(s.lines[n]) {
      BlankIsNoHeader(s.lines[n]);
      PrefixShaped(s, n);
      HeaderStays(Section(s.name, s.lines[..n]));
    } else {
      LastStripped(s);
    }
  }

  lemma {:induction false} BlankIsNoHeader(l: string)
    requires Blank(l)
    ensures !IsHeader(l) && KeyOf(l) == None
  {
  }

  lemma {:induction false} HeadersTrimmed(s: Section)
    requires HeadersOf(s)
    ensures HeadersOf(Section(s.name, Trimmed(s.lines)))
    decreases |s.lines|
  {
    if s.lines != [] {
      var n := |s.lines| - 1;
      if Blank(s.lines[n]) {
        PrefixShaped(s, n);
        HeadersTrimmed(Section(s.name, s.lines[..n]));
      } else {
        LastStripped(s);
      }
    }
  }

  lemma {:induction false} EndBlankShaped(s: Section)
    requires HeadersOf(s)
    ensures HeadersOf(Section(s.name, EndBlank(s.lines))) && (Begins(s) ==> Begins(Section(s.name, EndBlank(s.lines))))
  {
    BlankIsNoHeader("");
  }

  lemma {:induction false} LastShaped(s: Section, only: bool)
    requires HeadersOf(s)
    ensures HeadersOf(Section(s.name, LastLines(s.lines, only)))
    ensures Begins(s) ==> Begins(Section(s.name, LastLines(s.lines, only)))
  {
    BlankIsNoHeader("");
    HeadersTrimmed(s);
    if Begins(s) {
      HeaderStays(s);
    }
  }

  /** The final sections have the shape of split texts. */
  lemma {:induction false} FinalShaped(secs: seq<Section>)
    requires Shaped(secs)
    ensures Shaped(Final(secs))
  {
    var f := Final(secs);
    assert Names(f) == Names(secs);
    SameNames(secs, f, 0);
    forall i: nat | i < |f| ensures HeadersOf(f[i]) && (i > 0 ==> Begins(f[i])) {
      FinalSectionShaped(secs, i);
    }
  }

  lemma {:induction false} FinalSectionShaped(secs: seq<Section>, i: nat)
    requires Shaped(secs) && i < |secs|
    ensures HeadersOf(Final(secs)[i]) && (i > 0 ==> Begins(Final(secs)[i]))
  {
    assert HeadersOf(secs[i]) && (i > 0 ==> Begins(secs[i]));
    if i < |secs| - 1 {
      EndBlankShaped(secs[i]);
    } else {
      LastShaped(secs[i], |secs| == 1);
    }
  }

  /** Finishing twice is finishing once. */
  lemma {:induction false} FinalTwice(secs: seq<Section>)
    requires secs != []
    ensures Final(Final(secs)) == Final(secs)
  {
    var f, n := Final(secs), |secs| - 1;
    TrimmedIdempotent(secs[n].lines);
    assert Blank("") && Trimmed([""]) == [] by { assert [""][..0] == []; }
    assert f[..n] == Spaced(secs[..n]);
    forall k | 0 <= k < n ensures Spaced(f[..n])[k] == f[k] {
      EndBlankTwice(secs[k].lines);
    }
    assert Spaced(f[..n]) == f[..n];
  }

  lemma {:induction false} EndBlankTwice(ls: seq<string>)
    ensures EndBlank(EndBlank(ls)) == EndBlank(ls)
  {
  }

  // ----- all updates

  function Header(name: string): string {
    "[" + name + "]"
  }

  /** A section that is not there is made with its header. */
  function WithSection(secs: seq<Section>, name: string): (r: seq<Section>)
    ensures IndexOf(r, name) < |r|
  {
    if IndexOf(secs, name) < |secs| then secs
    else
      var r := secs + [Section(name, [Header(name)])];
      assert r[|secs|].name == name;
      r
  }

  function UpdateSection(secs: seq<Section>, u: SectionUpdate): seq<Section> {
    var r := WithSection(secs, u.name);
    var k := IndexOf(r, u.name);
    r[k := Section(u.name, NewLines(r[k].lines, u.values))]
  }

  function UpdateAll(secs: seq<Section>, us: seq<SectionUpdate>): seq<Section> {
    if us == [] then secs else UpdateSection(UpdateAll(secs, us[..|us| - 1]), us[|us| - 1])
  }

  function UpdatedText(text: string, us: seq<SectionUpdate>): string {
    StripRight(Join(Assembled(UpdateAll(Split(SplitLines(text)).sections, us)))) + "\n"
  }

  method UpdateSections(secs: seq<Section>, us: seq<SectionUpdate>) returns (sections: seq<Section>)
    ensures sections == UpdateAll(secs, us)
  {
    sections := secs;
    for n := 0 to |us|
      invariant sections == UpdateAll(secs, us[..n])
    {
      assert us[..n + 1][..n] == us[..n];
      sections := WithSection(sections, us[n].name);
      var k := IndexOf(sections, us[n].name);
      var out := UpdateLines(sections[k].lines, us[n].values);
      sections := sections[k := Section(us[n].name, out)];
    }
    assert us[..|us|] == us;
  }

  method Assemble(sections: seq<Section>) returns (lines: seq<string>)
    ensures lines == Assembled(sections)
  {
    lines := [];
    for n := 0 to |sections|
      invariant lines == Assembled(sections[..n])
    {
      assert sections[..n + 1][..n] == sections[..n];
      var block := sections[n].lines;
      if block != [] {
        if lines != [] && !Blank(lines[|lines| - 1]) {
          lines := lines + [""];
        }
        lines := lines + block;
      }
    }
    assert sections[..|sections|] == sections;
  }

  method UpdateToml(text: string, us: seq<SectionUpdate>) returns (r: string)
    ensures r == UpdatedText(text, us)
  {
    var sections := SplitSections(text);
    sections := UpdateSections(sections, us);
    var lines := Assemble(sections);
    r := StripRight(Join(lines)) + "\n";
  }

  /** Section names and values that fit on lines and keys that read back; a dictionary has each name once. */
  predicate Clean(us: seq<SectionUpdate>) {
    && (forall i :: 0 <= i < |us| ==> OneLine(us[i].name) && CleanValues(us[i].values))
    && (forall i, j :: 0 <= i < j < |us| ==> us[i].name != us[j].name)
  }

  lemma {:induction false} HeaderStrips(name: string)
    ensures Strip(Header(name)) == Header(name)
  {
    CharFacts('[');
    CharFacts(']');
    StripSolid(Header(name));
  }

  /** Only a name makes a header, and none of the lines is blank. */
  lemma {:induction false} MadeHeader(name: string)
    ensures IsHeader(Header(name)) <==> name != ""
    ensures name != "" ==> HeaderName(Header(name)) == name
    ensures !Blank(Header(name))
  {
    CharFacts('[');
    CharFacts(']');
    StripSolid(Header(name));
  }

  /** A header line is its section's header and space around it. */
  lemma {:induction false} HeaderLine(l: string)
    requires IsHeader(l)
    ensures HeaderName(l) != "" && Strip(l) == Header(HeaderName(l)) && KeyOf(l) == KeyOf(Header(HeaderName(l)))
  {
    var t := Strip(l);
    assert t == "[" + t[1..|t| - 1] + "]";
    HeaderStrips(HeaderName(l));
  }

  /** What is written for the section's own header is one: there is a name in it, and it does not read as a line that
      sets one of the keys. */
  predicate KeepsHeader(u: SectionUpdate) {
    u.name != "" && !Targeted(Header(u.name), u.values)
  }

  predicate HeadersKept(us: seq<SectionUpdate>) {
    forall i :: 0 <= i < |us| ==> KeepsHeader(us[i])
  }

  /** Updated lines have the same headers. */
  lemma {:induction false} NewLinesShaped(s: Section, values: seq<Entry>)
    requires HeadersOf(s) && CleanValues(values)
    ensures var t := Section(s.name, NewLines(s.lines, values));
            HeadersOf(t) && (Begins(s) && KeepsHeader(SectionUpdate(s.name, values)) ==> Begins(t))
  {
    var t := NewLines(s.lines, values);
    forall i | 0 <= i < |t| && IsHeader(t[i]) ensures i < |s.lines| && t[i] == s.lines[i] {
      if i < |s.lines| {
        RewrittenLine(s.lines[i], values);
      } else {
        MissingFormatted(s.lines, values, |values|, i - |s.lines|);
        var k :| 0 <= k < |values| && t[i] == FormatValue(values[k].key, values[k].value);
        FormattedStays(values, k);
      }
    }
    if Begins(s) {
      HeaderLine(s.lines[0]);
    }
  }

  /** Sections with different names, each with its own headers only. */
  ghost predicate Orderly(secs: seq<Section>) {
    && (forall i, j :: 0 <= i < j < |secs| ==> secs[i].name != secs[j].name)
    && (forall i :: 0 <= i < |secs| ==> HeadersOf(secs[i]))
  }

  lemma {:induction false} AddedOrderly(secs: seq<Section>, s: Section)
    requires Orderly(secs) && HeadersOf(s) && IndexOf(secs, s.name) == |secs|
    ensures Orderly(secs + [s])
  {
    var r := secs + [s];
    forall i | 0 <= i < |r| ensures HeadersOf(r[i]) && (i < |secs| ==> r[i].name != s.name) {
      assert i < |secs| ==> r[i] == secs[i];
    }
  }

  lemma {:induction false} WithSectionOrderly(secs: seq<Section>, name: string)
    requires Orderly(secs)
    ensures Orderly(WithSection(secs, name))
  {
    if IndexOf(secs, name) == |secs| {
      MadeHeader(name);
      AddedOrderly(secs, Section(name, [Header(name)]));
    }
  }

  lemma {:induction false} UpdateOrderly(secs: seq<Section>, u: SectionUpdate)
    requires Orderly(secs) && CleanValues(u.values)
    ensures Orderly(UpdateSection(secs, u))
  {
    var r := WithSection(secs, u.name);
    var k, q := IndexOf(r, u.name), UpdateSection(secs, u);
    WithSectionOrderly(secs, u.name);
    assert HeadersOf(r[k]);
    NewLinesShaped(r[k], u.values);
    assert Names(q) == Names(r);
    SameNames(r, q, k);
    forall i | 0 <= i < |q| ensures HeadersOf(q[i]) {
      assert i != k ==> q[i] == r[i];
    }
  }

  lemma {:induction false} AllOrderly(secs: seq<Section>, us: seq<SectionUpdate>)
    requires Orderly(secs) && Clean(us)
    ensures Orderly(UpdateAll(secs, us))
  {
    if us != [] {
      LastUpdate(us);
      AllOrderly(secs, us[..|us| - 1]);
      UpdateOrderly(UpdateAll(secs, us[..|us| - 1]), us[|us| - 1]);
    }
  }

  /** The section of an update is there and settled. */
  ghost predicate SettledIn(secs: seq<Section>, u: SectionUpdate) {
    var k := IndexOf(secs, u.name);
    k < |secs| && Settled(secs[k].lines, u.values)
  }

  lemma {:induction false} UpdateSettles(secs: seq<Section>, u: SectionUpdate)
    requires Orderly(secs) && CleanValues(u.values)
    ensures SettledIn(UpdateSection(secs, u), u)
  {
    UpdateOrderly(secs, u);
    var r := WithSection(secs, u.name);
    var k := IndexOf(r, u.name);
    IndexIs(UpdateSection(secs, u), k);
    NewLinesSettled(r[k].lines, u.values);
  }

  /** An update leaves every other section alone. */
  lemma {:induction false} OtherSection(secs: seq<Section>, u: SectionUpdate, k: nat)
    requires Orderly(secs) && CleanValues(u.values) && k < |secs| && secs[k].name != u.name
    ensures |UpdateSection(secs, u)| >= |secs| && UpdateSection(secs, u)[k] == secs[k]
    ensures IndexOf(UpdateSection(secs, u), secs[k].name) == k
  {
    UpdateOrderly(secs, u);
    IndexIs(UpdateSection(secs, u), k);
  }

  /** What all updates are, the last one and those before it are. */
  lemma {:induction false} LastUpdate(us: seq<SectionUpdate>)
    requires Clean(us) && us != []
    ensures Clean(us[..|us| - 1]) && (HeadersKept(us) ==> HeadersKept(us[..|us| - 1]) && KeepsHeader(us[|us| - 1]))
    ensures var u := us[|us| - 1];
            && OneLine(u.name) && CleanValues(u.values)
            && forall j :: 0 <= j < |us| - 1 ==> us[j].name != u.name
  {
  }

  /** Another update leaves a settled section settled. */
  lemma {:induction false} SettledAlone(secs: seq<Section>, u: SectionUpdate, w: SectionUpdate)
    requires Orderly(secs) && CleanValues(u.values) && w.name != u.name
    requires SettledIn(secs, w)
    ensures SettledIn(UpdateSection(secs, u), w)
  {
    OtherSection(secs, u, IndexOf(secs, w.name));
  }

  lemma {:induction false} AllSettled(secs: seq<Section>, us: seq<SectionUpdate>, j: nat)
    requires Orderly(secs) && Clean(us) && j < |us|
    ensures SettledIn(UpdateAll(secs, us), us[j])
  {
    var front, u := us[..|us| - 1], us[|us| - 1];
    LastUpdate(us);
    AllOrderly(secs, front);
    if j == |us| - 1 {
      UpdateSettles(UpdateAll(secs, front), u);
    } else {
      AllSettled(secs, front, j);
      SettledAlone(UpdateAll(secs, front), u, us[j]);
    }
  }

  // ----- settled sections stay settled when they are finished

  lemma {:induction false} EndBlankSettled(ls: seq<string>, values: seq<Entry>)
    requires Settled(ls, values)
    ensures Settled(EndBlank(ls), values)
  {
    BlankIsNoHeader("");
    SeenGrows(ls, "");
  }

  lemma {:induction false} StrippedLine(l: string, values: seq<Entry>)
    requires CleanValues(values) && RewriteLine(l, values) == l
    ensures KeyOf(StripRight(l)) == KeyOf(l) && RewriteLine(StripRight(l), values) == StripRight(l)
  {
    StripRightTwice(l);
    assert Strip(StripRight(l)) == Strip(l);
    if Targeted(l, values) {
      FormattedStays(values, Find(values, KeyOf(l).value));
    }
  }

  lemma {:induction false} SettledFront(front: seq<string>, last: string, values: seq<Entry>)
    requires Settled(front + [last], values) && Blank(last)
    ensures Settled(front, values)
  {
    BlankIsNoHeader(last);
    SeenGrows(front, last);
    assert forall i :: 0 <= i < |front| ==> (front + [last])[i] == front[i];
  }

  lemma {:induction false} SettledStripped(front: seq<string>, last: string, values: seq<Entry>)
    requires CleanValues(values) && Settled(front + [last], values)
    ensures Settled(front + [StripRight(last)], values)
  {
    var a, b := front + [last], front + [StripRight(last)];
    assert a[|front|] == last;
    StrippedLine(last, values);
    SeenGrows(front, last);
    SeenGrows(front, StripRight(last));
    assert forall i :: 0 <= i < |front| ==> b[i] == a[i];
  }

  lemma {:induction false} TrimmedSettled(ls: seq<string>, values: seq<Entry>)
    requires CleanValues(values) && Settled(ls, values)
    ensures Settled(Trimmed(ls), values)
    decreases |ls|
  {
    if ls != [] {
      var front, last := ls[..|ls| - 1], ls[|ls| - 1];
      assert ls == front + [last];
      if Blank(last) {
        SettledFront(front, last, values);
        TrimmedSettled(front, values);
      } else {
        SettledStripped(front, last, values);
      }
    }
  }

  lemma {:induction false} LastSettled(ls: seq<string>, values: seq<Entry>, only: bool)
    requires CleanValues(values) && Settled(ls, values)
    ensures Settled(LastLines(ls, only), values)
  {
    TrimmedSettled(ls, values);
    BlankIsNoHeader("");
    SeenGrows([], "");
    assert [] + [""] == [""];
  }

  /** Finishing leaves a section where it was. */
  lemma {:induction false} FinalIndex(secs: seq<Section>, k: nat)
    requires Shaped(secs) && k < |secs|
    ensures IndexOf(Final(secs), secs[k].name) == k
    ensures Final(secs)[k].lines
            == if k < |secs| - 1 then EndBlank(secs[k].lines) else LastLines(secs[k].lines, |secs| == 1)
  {
    FinalShaped(secs);
    assert Final(secs)[k].name == secs[k].name;
    IndexIs(Final(secs), k);
  }

  lemma {:induction false} FinalSettled(secs: seq<Section>, u: SectionUpdate)
    requires Shaped(secs) && CleanValues(u.values) && SettledIn(secs, u)
    ensures SettledIn(Final(secs), u)
  {
    var k := IndexOf(secs, u.name);
    FinalIndex(secs, k);
    if k < |secs| - 1 {
      EndBlankSettled(secs[k].lines, u.values);
    } else {
      LastSettled(secs[k].lines, u.values, |secs| == 1);
    }
  }

  /** Updating settled sections does nothing. */
  lemma {:induction false} SettledFixed(secs: seq<Section>, us: seq<SectionUpdate>)
    requires forall j :: 0 <= j < |us| ==> SettledIn(secs, us[j])
    ensures UpdateAll(secs, us) == secs
  {
    if us != [] {
      var u := us[|us| - 1];
      SettledFixed(secs, us[..|us| - 1]);
      assert SettledIn(secs, u);
      SettledStays(secs[IndexOf(secs, u.name)].lines, u.values);
    }
  }

  // ----- sections that lose their headers

  /** New lines are old lines or formatted ones. */
  lemma {:induction false} NewLine(ls: seq<string>, values: seq<Entry>, l: string)
    requires CleanValues(values) && l in NewLines(ls, values) && IsHeader(l)
    ensures l in ls && !Targeted(l, values)
  {
    var t := NewLines(ls, values);
    var i :| 0 <= i < |t| && t[i] == l;
    if i < |ls| {
      RewrittenLine(ls[i], values);
    } else {
      MissingFormatted(ls, values, |values|, i - |ls|);
      var k :| 0 <= k < |values| && l == FormatValue(values[k].key, values[k].value);
      FormattedStays(values, k);
    }
  }

  /** The results of a function for all lines, one after another. */
  function Gathered(f: string -> seq<string>, ls: seq<string>): seq<string> {
    if ls == [] then [] else Gathered(f, ls[..|ls| - 1]) + f(ls[|ls| - 1])
  }

  lemma {:induction false} GatheredSum(f: string -> seq<string>, a: seq<string>, b: seq<string>)
    ensures Gathered(f, a + b) == Gathered(f, a) + Gathered(f, b)
  {
    if b == [] {
      assert a + b == a;
    } else {
      var front, last := b[..|b| - 1], b[|b| - 1];
      GatheredSum(f, a, front);
      assert (a + b)[..|a + b| - 1] == a + front && (a + b)[|a + b| - 1] == last;
      SumOfSums(Gathered(f, a), Gathered(f, front), f(last));
    }
  }

  lemma {:induction false} SumOfSums(x: seq<string>, y: seq<string>, z: seq<string>)
    ensures (x + y) + z == x + (y + z)
  {
  }

  lemma {:induction false} GatheredSame(f: string -> seq<string>, a: seq<string>, b: seq<string>)
    requires |a| == |b| && forall i :: 0 <= i < |a| ==> f(a[i]) == f(b[i])
    ensures Gathered(f, a) == Gathered(f, b)
  {
    if a != [] {
      GatheredSame(f, a[..|a| - 1], b[..|b| - 1]);
    }
  }

  lemma {:induction false} GatheredNothing(f: string -> seq<string>, ls: seq<string>)
    requires forall i :: 0 <= i < |ls| ==> f(ls[i]) == []
    ensures Gathered(f, ls) == []
  {
    if ls != [] {
      GatheredNothing(f, ls[..|ls| - 1]);
    }
  }

  function NonBlank(ls: seq<string>): seq<string> {
    Gathered(l => if Blank(l) then [] else [l], ls)
  }

  lemma {:induction false} NonBlankSum(a: seq<string>, b: seq<string>)
    ensures NonBlank(a + b) == NonBlank(a) + NonBlank(b)
  {
    GatheredSum(l => if Blank(l) then [] else [l], a, b);
  }

  lemma {:induction false} NonBlankOne(l: string)
    ensures NonBlank([l]) == if Blank(l) then [] else [l]
  {
    assert [l][..0] == [];
    assert NonBlank([]) == [];
  }

  lemma {:induction false} NonBlankNext(ls: seq<string>, l: string)
    ensures NonBlank(ls + [l]) == if Blank(l) then NonBlank(ls) else NonBlank(ls) + [l]
  {
    NonBlankSum(ls, [l]);
    NonBlankOne(l);
    assert NonBlank(ls) + [] == NonBlank(ls);
  }

  lemma {:induction false} EndBlankNonBlank(ls: seq<string>)
    ensures NonBlank(EndBlank(ls)) == NonBlank(ls)
  {
    NonBlankNext(ls, "");
  }

  /** The lines without space after the last one. */
  function LastStrippedOf(ls: seq<string>): seq<string> {
    if ls == [] then [] else ls[..|ls| - 1] + [StripRight(ls[|ls| - 1])]
  }

  lemma {:induction false} LastStrippedNext(ls: seq<string>, l: string)
    ensures LastStrippedOf(ls + [l]) == ls + [StripRight(l)]
  {
    assert (ls + [l])[..|ls|] == ls;
  }

  lemma {:induction false} LastLinesNonBlank(ls: seq<string>, only: bool)
    ensures NonBlank(LastLines(ls, only)) == LastStrippedOf(NonBlank(ls))
    decreases |ls|
  {
    if ls == [] {
      NonBlankOne("");
    } else {
      var front, last := ls[..|ls| - 1], ls[|ls| - 1];
      assert ls == front + [last];
      NonBlankNext(front, last);
      if Blank(last) {
        LastLinesNonBlank(front, only);
      } else {
        StripRightTwice(last);
        NonBlankNext(front, StripRight(last));
        LastStrippedNext(NonBlank(front), last);
      }
    }
  }

  predicate Headerless(s: Section) {
    forall l :: l in s.lines ==> !IsHeader(l)
  }

  /** Every section but the root begins with its header or has none. */
  ghost predicate Mergeable(secs: seq<Section>) {
    && secs != [] && secs[0].name == ROOT && Orderly(secs)
    && forall i :: 0 < i < |secs| ==> Begins(secs[i]) || Headerless(secs[i])
  }

  /** A block of lines goes behind others. */
  function Attached(ls: seq<string>, block: seq<string>): seq<string> {
    if block == [] then ls else EndBlank(ls) + block
  }

  /** One more section: if it does not begin with a header, it becomes part of the one before it. */
  function WithNext(secs: seq<Section>, s: Section): (r: seq<Section>)
    requires secs != []
    ensures |secs| <= |r| <= |secs| + 1
  {
    var n := |secs| - 1;
    if Begins(s) then secs + [s] else secs[n := Section(secs[n].name, Attached(secs[n].lines, s.lines))]
  }

  function Merged(secs: seq<Section>): (r: seq<Section>)
    requires secs != []
    ensures 0 < |r| <= |secs|
  {
    if |secs| == 1 then secs else WithNext(Merged(secs[..|secs| - 1]), secs[|secs| - 1])
  }

  lemma {:induction false} AssembledNext(secs: seq<Section>, s: Section)
    ensures Assembled(secs + [s]) == Attached(Assembled(secs), s.lines)
  {
    assert (secs + [s])[..|secs|] == secs;
  }

  lemma {:induction false} AttachedTwice(a: seq<string>, ls: seq<string>, block: seq<string>)
    ensures Attached(a, Attached(ls, block)) == Attached(Attached(a, ls), block)
  {
    if ls != [] && block != [] {
      EndBlankSum(EndBlank(a), ls);
      assert EndBlank(a) + (EndBlank(ls) + block) == EndBlank(a) + EndBlank(ls) + block;
    } else if ls == [] {
      assert EndBlank([]) + block == block;
    }
  }

  lemma {:induction false} AssembledAttached(a: seq<Section>, last: Section, block: seq<string>)
    ensures Assembled(a + [Section(last.name, Attached(last.lines, block))]) == Attached(Assembled(a + [last]), block)
  {
    AssembledNext(a, last);
    AssembledNext(a, Section(last.name, Attached(last.lines, block)));
    AttachedTwice(Assembled(a), last.lines, block);
  }

  lemma {:induction false} MergedNext(secs: seq<Section>)
    requires |secs| > 1
    ensures var (front, s) := (Merged(secs[..|secs| - 1]), secs[|secs| - 1]);
            && Assembled(Merged(secs)) == Attached(Assembled(front), s.lines)
            && Assembled(secs) == Attached(Assembled(secs[..|secs| - 1]), s.lines)
  {
    var front, s := Merged(secs[..|secs| - 1]), secs[|secs| - 1];
    var n, last := |front| - 1, front[|front| - 1];
    assert front == front[..n] + [last];
    if Begins(s) {
      AssembledNext(front, s);
    } else {
      AssembledAttached(front[..n], last, s.lines);
      assert Merged(secs) == front[..n] + [Section(last.name, Attached(last.lines, s.lines))];
    }
  }

  /** What is written does not show the difference. */
  lemma {:induction false} AssembledMerged(secs: seq<Section>)
    requires secs != []
    ensures Assembled(Merged(secs)) == Assembled(secs)
  {
    if |secs| > 1 {
      AssembledMerged(secs[..|secs| - 1]);
      MergedNext(secs);
    }
  }

  /** Merging makes no names. */
  lemma {:induction false} MergedName(secs: seq<Section>, i: nat) returns (k: nat)
    requires secs != [] && i < |Merged(secs)|
    ensures k < |secs| && Merged(secs)[i].name == secs[k].name && (i == 0 ==> k == 0)
  {
    if |secs| == 1 {
      k := 0;
    } else if Begins(secs[|secs| - 1]) && i == |Merged(secs)| - 1 {
      k := |secs| - 1;
    } else {
      k := MergedName(secs[..|secs| - 1], i);
    }
  }

  lemma {:induction false} MergeableFront(secs: seq<Section>)
    requires Mergeable(secs) && |secs| > 1
    ensures Mergeable(secs[..|secs| - 1])
    ensures var (m, s) := (Merged(secs[..|secs| - 1]), secs[|secs| - 1]);
            IndexOf(m, s.name) == |m|
  {
    var rest, s := secs[..|secs| - 1], secs[|secs| - 1];
    assert forall i :: 0 <= i < |rest| ==> rest[i] == secs[i];
    var m := Merged(rest);
    forall i: nat | i < |m| ensures m[i].name != s.name {
      var k := MergedName(rest, i);
    }
  }

  lemma {:induction false} HeadersAttached(a: Section, block: seq<string>)
    requires HeadersOf(a) && forall l :: l in block ==> !IsHeader(l)
    ensures HeadersOf(Section(a.name, Attached(a.lines, block)))
  {
    BlankIsNoHeader("");
    forall l | l in Attached(a.lines, block) && IsHeader(l) ensures HeaderName(l) == a.name {
      assert l in block || l in a.lines || l == "";
    }
  }

  lemma {:induction false} OnlyRoot(secs: seq<Section>)
    requires Mergeable(secs) && |secs| == 1
    ensures Shaped(secs)
  {
  }

  /** One more section with its header. */
  lemma {:induction false} ShapedMore(secs: seq<Section>, s: Section)
    requires Shaped(secs) && HeadersOf(s) && Begins(s) && IndexOf(secs, s.name) == |secs|
    ensures Shaped(secs + [s])
  {
    var q := secs + [s];
    forall i | 0 <= i < |q|
      ensures HeadersOf(q[i]) && (i > 0 ==> Begins(q[i])) && (i < |secs| ==> q[i].name != s.name)
    {
      assert i < |secs| ==> q[i] == secs[i];
    }
  }

  /** One section is replaced by another of its name and shape. */
  lemma {:induction false} ReplacedShaped(secs: seq<Section>, k: nat, s: Section)
    requires Shaped(secs) && k < |secs| && s.name == secs[k].name && HeadersOf(s) && (Begins(secs[k]) ==> Begins(s))
    ensures Shaped(secs[k := s])
  {
    var q := secs[k := s];
    assert Names(q) == Names(secs);
    SameNames(secs, q, k);
  }

  /** Merged sections have the shape of split texts. */
  lemma {:induction false} MergedShaped(secs: seq<Section>)
    requires Mergeable(secs)
    ensures Shaped(Merged(secs))
  {
    if |secs| == 1 {
      OnlyRoot(secs);
    } else {
      var s := secs[|secs| - 1];
      var front := Merged(secs[..|secs| - 1]);
      var last := front[|front| - 1];
      MergeableFront(secs);
      MergedShaped(secs[..|secs| - 1]);
      assert HeadersOf(s);
      if Begins(s) {
        ShapedMore(front, s);
      } else {
        HeadersAttached(last, s.lines);
        AttachedBegins(last, s.lines);
        ReplacedShaped(front, |front| - 1, Section(last.name, Attached(last.lines, s.lines)));
      }
    }
  }

  lemma {:induction false} AttachedBegins(a: Section, block: seq<string>)
    ensures Begins(a) ==> Begins(Section(a.name, Attached(a.lines, block)))
  {
  }

  lemma {:induction false} MergedFits(secs: seq<Section>)
    requires secs != [] && LinesFit(secs)
    ensures LinesFit(Merged(secs))
  {
    if |secs| > 1 {
      var front := Merged(secs[..|secs| - 1]);
      MergedFits(secs[..|secs| - 1]);
      assert AllOneLine(front[|front| - 1].lines) && AllOneLine(secs[|secs| - 1].lines);
    }
  }

  /** Nothing is merged if every section begins with its header. */
  lemma {:induction false} MergedSame(secs: seq<Section>)
    requires secs != [] && forall i :: 0 < i < |secs| ==> Begins(secs[i])
    ensures Merged(secs) == secs
  {
    if |secs| > 1 {
      var front, n := secs[..|secs| - 1], |secs| - 1;
      assert forall i :: 0 <= i < n ==> front[i] == secs[i];
      MergedSame(front);
      assert WithNext(front, secs[n]) == front + [secs[n]] == secs;
    }
  }

  // ----- which sections lose theirs

  /** Some update does not keep the header of the section. */
  predicate Loses(us: seq<SectionUpdate>, name: string) {
    exists j :: 0 <= j < |us| && us[j].name == name && !KeepsHeader(us[j])
  }

  /** A section with its header either keeps it or has none afterwards. */
  lemma {:induction false} NewLinesMergeable(s: Section, u: SectionUpdate)
    requires HeadersOf(s) && (Begins(s) || Headerless(s)) && CleanValues(u.values) && u.name == s.name
    ensures var t := Section(s.name, NewLines(s.lines, u.values));
            && HeadersOf(t) && (Begins(t) || Headerless(t)) && (Begins(t) <==> Begins(s) && KeepsHeader(u))
  {
    var t := Section(s.name, NewLines(s.lines, u.values));
    NewLinesShaped(s, u.values);
    forall l | l in t.lines && IsHeader(l) ensures l in s.lines && KeepsHeader(u) {
      NewLine(s.lines, u.values, l);
      HeaderLine(l);
    }
    if Begins(t) {
      assert t.lines[0] in t.lines;
    }
  }

  lemma {:induction false} MadeMergeable(name: string)
    ensures var s := Section(name, [Header(name)]);
            HeadersOf(s) && (Begins(s) || Headerless(s)) && (Begins(s) <==> name != "")
  {
    MadeHeader(name);
  }

  lemma {:induction false} AddedMergeable(secs: seq<Section>, s: Section)
    requires Mergeable(secs) && Orderly(secs + [s]) && (Begins(s) || Headerless(s))
    ensures Mergeable(secs + [s])
  {
  }

  lemma {:induction false} WithSectionMergeable(secs: seq<Section>, name: string)
    requires Mergeable(secs)
    ensures var r := WithSection(secs, name);
            && Mergeable(r) && |r| >= |secs| && (forall i :: 0 <= i < |secs| ==> r[i] == secs[i])
            && forall i :: |secs| <= i < |r| ==> r[i].name == name && (Begins(r[i]) <==> name != "")
  {
    if IndexOf(secs, name) == |secs| {
      WithSectionOrderly(secs, name);
      MadeMergeable(name);
      AddedMergeable(secs, Section(name, [Header(name)]));
    }
  }

  lemma {:induction false} UpdateMergeable(secs: seq<Section>, u: SectionUpdate)
    requires Mergeable(secs) && CleanValues(u.values)
    ensures Mergeable(UpdateSection(secs, u)) && |UpdateSection(secs, u)| == |WithSection(secs, u.name)|
    ensures var (r, k) := (WithSection(secs, u.name), IndexOf(WithSection(secs, u.name), u.name));
            && (forall i :: 0 <= i < |r| && i != k ==> UpdateSection(secs, u)[i] == r[i])
            && UpdateSection(secs, u)[k].name == u.name
            && (k > 0 ==> (Begins(UpdateSection(secs, u)[k]) <==> Begins(r[k]) && KeepsHeader(u)))
  {
    var r, q := WithSection(secs, u.name), UpdateSection(secs, u);
    var k := IndexOf(r, u.name);
    UpdateOrderly(secs, u);
    WithSectionMergeable(secs, u.name);
    if k > 0 {
      NewLinesMergeable(r[k], u);
    }
  }

  /** How one update changes which sections begin with their headers. */
  lemma {:induction false} UpdateBegins(secs: seq<Section>, u: SectionUpdate, k: nat)
    requires Mergeable(secs) && CleanValues(u.values) && 0 < k < |UpdateSection(secs, u)|
    ensures var s := UpdateSection(secs, u)[k];
            if s.name == u.name then Begins(s) <==> KeepsHeader(u) && (k < |secs| ==> Begins(secs[k]))
            else k < |secs| && s == secs[k]
    ensures k < |secs| ==> secs[k].name == UpdateSection(secs, u)[k].name
  {
    UpdateMergeable(secs, u);
    WithSectionMergeable(secs, u.name);
    var r := WithSection(secs, u.name);
    IndexIs(r, k);
  }

  /** All updates: a section begins with its header afterwards exactly unless an update does not keep it. */
  lemma {:induction false} AllMergeable(secs: seq<Section>, us: seq<SectionUpdate>, k: nat)
    requires Shaped(secs) && Clean(us)
    ensures Mergeable(UpdateAll(secs, us)) && |UpdateAll(secs, us)| >= |secs|
    ensures 0 < k < |UpdateAll(secs, us)| ==>
              (Begins(UpdateAll(secs, us)[k]) <==> !Loses(us, UpdateAll(secs, us)[k].name))
  {
    if us != [] {
      var front, u := us[..|us| - 1], us[|us| - 1];
      var before, after := UpdateAll(secs, front), UpdateAll(secs, us);
      LastUpdate(us);
      AllMergeable(secs, front, k);
      UpdateMergeable(before, u);
      if 0 < k < |after| {
        UpdateBegins(before, u, k);
        LosesNext(us, after[k].name);
        if k >= |before| {
          assert after[k].name == u.name;
        }
      }
    }
  }

  lemma {:induction false} LosesNext(us: seq<SectionUpdate>, name: string)
    requires us != [] && forall j :: 0 <= j < |us| - 1 ==> us[j].name != us[|us| - 1].name
    ensures var (front, u) := (us[..|us| - 1], us[|us| - 1]);
            Loses(us, name) <==> if u.name == name then !KeepsHeader(u) else Loses(front, name)
    ensures us[|us| - 1].name == name ==> !Loses(us[..|us| - 1], name)
  {
    var front, n := us[..|us| - 1], |us| - 1;
    assert forall j :: 0 <= j < n ==> us[j] == front[j];
    if us[n].name == name {
      assert !Loses(front, name);
    } else if Loses(us, name) {
      var j :| 0 <= j < |us| && us[j].name == name && !KeepsHeader(us[j]);
      assert front[j] == us[j];
    }
  }

  // ----- what is read back

  predicate LinesFit(secs: seq<Section>) {
    forall k :: 0 <= k < |secs| ==> AllOneLine(secs[k].lines)
  }

  lemma {:induction false} SplitFits(lines: seq<string>)
    requires AllOneLine(lines)
    ensures LinesFit(Split(lines).sections)
  {
    if lines != [] {
      var front, last := lines[..|lines| - 1], lines[|lines| - 1];
      assert forall l :: l in front ==> l in lines;
      assert last in lines;
      SplitFits(front);
    }
  }

  lemma {:induction false} EscapedOne(c: char)
    requires !IsBreak(c)
    ensures OneLine(EscapedChar(c))
  {
    forall x | x in EscapedChar(c) ensures !IsBreak(x) {
      if x != c {
        CharFacts(x);
      }
    }
  }

  lemma {:induction false} EscapedFits(s: string)
    requires OneLine(s)
    ensures OneLine(Escaped(s))
  {
    if s != "" {
      assert forall c :: c in s[1..] ==> c in s;
      EscapedFits(s[1..]);
      EscapedOne(s[0]);
    }
  }

  lemma {:induction false} FormattedFits(k: string, v: Value)
    requires CleanKey(k) && CleanValue(v)
    ensures OneLine(FormatValue(k, v))
  {
    if v.Text? {
      EscapedFits(v.s);
    }
    forall c | c in " = " + ValueText(v) && !(v.Text? && c in Escaped(v.s)) ensures !IsBreak(c) {
      CharFacts(c);
    }
  }

  lemma {:induction false} NewLinesFit(ls: seq<string>, values: seq<Entry>)
    requires AllOneLine(ls) && CleanValues(values)
    ensures AllOneLine(NewLines(ls, values))
  {
    var t := NewLines(ls, values);
    forall l | l in t ensures OneLine(l) {
      var i :| 0 <= i < |t| && t[i] == l;
      if i < |ls| {
        assert ls[i] in ls;
        if Targeted(ls[i], values) {
          var k := Find(values, KeyOf(ls[i]).value);
          FormattedFits(values[k].key, values[k].value);
        }
      } else {
        MissingFormatted(ls, values, |values|, i - |ls|);
        var k :| 0 <= k < |values| && l == FormatValue(values[k].key, values[k].value);
        FormattedFits(values[k].key, values[k].value);
      }
    }
  }

  lemma {:induction false} HeaderFits(name: string)
    requires OneLine(name)
    ensures OneLine(Header(name))
  {
    CharFacts('[');
    CharFacts(']');
  }

  lemma {:induction false} AllFit(secs: seq<Section>, us: seq<SectionUpdate>)
    requires LinesFit(secs) && Clean(us)
    ensures LinesFit(UpdateAll(secs, us))
  {
    if us != [] {
      var u := us[|us| - 1];
      LastUpdate(us);
      AllFit(secs, us[..|us| - 1]);
      UpdateFits(UpdateAll(secs, us[..|us| - 1]), u);
    }
  }

  lemma {:induction false} UpdateFits(secs: seq<Section>, u: SectionUpdate)
    requires LinesFit(secs) && OneLine(u.name) && CleanValues(u.values)
    ensures LinesFit(UpdateSection(secs, u))
  {
    var r := WithSection(secs, u.name);
    HeaderFits(u.name);
    NewLinesFit(r[IndexOf(r, u.name)].lines, u.values);
  }

  lemma {:induction false} FinalFits(secs: seq<Section>)
    requires secs != [] && LinesFit(secs)
    ensures LinesFit(Final(secs))
  {
    TrimmedOneLine(secs[|secs| - 1].lines);
    forall k | 0 <= k < |secs| ensures AllOneLine(EndBlank(secs[k].lines)) {}
  }

  lemma {:induction false} FlatFits(secs: seq<Section>)
    requires LinesFit(secs)
    ensures AllOneLine(Flatten(secs))
  {
    if secs != [] {
      FlatFits(secs[..|secs| - 1]);
    }
  }

  /** The assembled lines of one section, trimmed. */
  lemma {:induction false} OnlySection(s: Section)
    ensures Flatten(Final([s])) == LastLines(s.lines, true) != []
    ensures Join(Trimmed(Assembled([s]))) == Join(LastLines(s.lines, true))
  {
    var secs := [s];
    AssembledIsFlat(secs);
    assert secs[..0] == [] && Final(secs)[..0] == [];
    assert [] + s.lines == s.lines && [] + LastLines(s.lines, true) == LastLines(s.lines, true);
  }

  /** With several sections the last one begins with a header, which trimming leaves. */
  lemma {:induction false} SeveralSections(secs: seq<Section>)
    requires Shaped(secs) && |secs| > 1
    ensures Flatten(Final(secs)) == Trimmed(Assembled(secs)) != []
  {
    var front, last, f := secs[..|secs| - 1], secs[|secs| - 1], Final(secs);
    assert forall i :: 0 < i < |secs| ==> Begins(secs[i]);
    AssembledIsFlat(secs);
    assert f[..|secs| - 1] == Spaced(front);
    HeaderStays(last);
    TrimmedSum(Flatten(Spaced(front)), last.lines);
  }

  /** The updated text is its final sections written out. */
  lemma {:induction false} TextIsFinal(secs: seq<Section>)
    requires Shaped(secs)
    ensures Flatten(Final(secs)) != []
    ensures StripRight(Join(Assembled(secs))) == Join(Flatten(Final(secs)))
  {
    StripJoined(Assembled(secs));
    if |secs| == 1 {
      assert secs == [secs[0]];
      OnlySection(secs[0]);
    } else {
      SeveralSections(secs);
    }
  }

  /** Reading an updated text gives back its sections, finished; one that lost its header is part of the one before it.
      */
  lemma {:induction false} UpdateReadsBack(text: string, us: seq<SectionUpdate>)
    requires Clean(us)
    ensures Mergeable(UpdateAll(Split(SplitLines(text)).sections, us))
    ensures var m := Merged(UpdateAll(Split(SplitLines(text)).sections, us));
            && Shaped(m) && UpdatedText(text, us) == Join(Flatten(Final(m))) + "\n"
            && Split(SplitLines(UpdatedText(text, us))).sections == Final(m)
  {
    var lines := SplitLines(text);
    var secs := UpdateAll(Split(lines).sections, us);
    SplitShaped(lines);
    AllMergeable(Split(lines).sections, us, 0);
    MergedShaped(secs);
    AssembledMerged(secs);
    TextIsFinal(Merged(secs));
    SplitFits(lines);
    AllFit(Split(lines).sections, us);
    MergedFits(secs);
    FinalReadsBack(Merged(secs));
  }

  lemma {:induction false} FinalReadsBack(secs: seq<Section>)
    requires Shaped(secs) && LinesFit(secs)
    ensures Split(SplitLines(Join(Flatten(Final(secs))) + "\n")).sections == Final(secs)
  {
    TextIsFinal(secs);
    FinalFits(secs);
    FlatFits(Final(secs));
    SplitJoined(Flatten(Final(secs)));
    FinalShaped(secs);
    SplitFlat(Final(secs));
  }

  /** If all headers are kept, nothing is merged. */
  lemma {:induction false} AllKept(text: string, us: seq<SectionUpdate>)
    requires Clean(us) && HeadersKept(us)
    ensures var secs := UpdateAll(Split(SplitLines(text)).sections, us);
            secs != [] && (forall i :: 0 < i < |secs| ==> Begins(secs[i])) && Merged(secs) == secs
  {
    var before := Split(SplitLines(text)).sections;
    var secs := UpdateAll(before, us);
    SplitShaped(SplitLines(text));
    AllMergeable(before, us, 0);
    forall i | 0 < i < |secs| ensures Begins(secs[i]) {
      AllMergeable(before, us, i);
    }
    MergedSame(secs);
  }

  lemma {:induction false} KeptIsIdempotent(text: string, us: seq<SectionUpdate>)
    requires Clean(us) && HeadersKept(us)
    ensures UpdatedText(UpdatedText(text, us), us) == UpdatedText(text, us)
  {
    var before := Split(SplitLines(text)).sections;
    var secs := UpdateAll(before, us);
    UpdateReadsBack(text, us);
    AllKept(text, us);
    SplitShaped(SplitLines(text));
    forall j | 0 <= j < |us| ensures SettledIn(Final(secs), us[j]) {
      AllSettled(before, us, j);
      FinalSettled(secs, us[j]);
    }
    SettledFixed(Final(secs), us);
    FinalShaped(secs);
    TextIsFinal(Final(secs));
    FinalTwice(secs);
  }

  // ----- what one section reads as

  /** No section after `k` begins with a header. */
  predicate Open(secs: seq<Section>, k: nat) {
    forall i :: k < i < |secs| ==> !Begins(secs[i])
  }

  /** The lines of the sections after `k` up to the next one that begins with a header. */
  function Orphans(secs: seq<Section>, k: nat): seq<string>
    requires k < |secs|
  {
    if k == |secs| - 1 then []
    else Orphans(secs[..|secs| - 1], k) + if Open(secs, k) then secs[|secs| - 1].lines else []
  }

  lemma {:induction false} AttachedNonBlank(ls: seq<string>, block: seq<string>)
    ensures NonBlank(Attached(ls, block)) == NonBlank(ls) + NonBlank(block)
  {
    EndBlankNonBlank(ls);
    NonBlankSum(EndBlank(ls), block);
    assert NonBlank([]) == [];
  }

  /** The section has its own lines and its orphans, and is the last one exactly if no header follows. */
  predicate Collects(merged: seq<Section>, name: string, open: bool, own: seq<string>, orphans: seq<string>) {
    var m := IndexOf(merged, name);
    m < |merged| && (m == |merged| - 1 <==> open) && NonBlank(merged[m].lines) == own + orphans
  }

  lemma {:induction false} OpenFront(secs: seq<Section>, k: nat)
    requires k < |secs| - 1
    ensures Open(secs, k) <==> Open(secs[..|secs| - 1], k) && !Begins(secs[|secs| - 1])
  {
    var front := secs[..|secs| - 1];
    assert forall i :: 0 <= i < |front| ==> front[i] == secs[i];
  }

  /** A section that begins with its header, or the root, collects what follows. */
  lemma {:induction false} MergedCollects(secs: seq<Section>, k: nat)
    requires Mergeable(secs) && k < |secs| && (k == 0 || Begins(secs[k]))
    ensures Collects(Merged(secs), secs[k].name, Open(secs, k), NonBlank(secs[k].lines), NonBlank(Orphans(secs, k)))
  {
    var n := |secs| - 1;
    if n == 0 {
      assert NonBlank([]) == [];
    } else if k == n {
      MergeableFront(secs);
      AddedCollects(Merged(secs[..n]), secs[n]);
      assert NonBlank([]) == [];
    } else {
      MergeableFront(secs);
      assert secs[..n][k] == secs[k];
      MergedCollects(secs[..n], k);
      CollectsNext(secs, k);
    }
  }

  lemma {:induction false} CollectsNext(secs: seq<Section>, k: nat)
    requires k < |secs| - 1
    requires var front := secs[..|secs| - 1];
             Collects(Merged(front), secs[k].name, Open(front, k), NonBlank(secs[k].lines), NonBlank(Orphans(front, k)))
    ensures Collects(Merged(secs), secs[k].name, Open(secs, k), NonBlank(secs[k].lines), NonBlank(Orphans(secs, k)))
  {
    var front, s := secs[..|secs| - 1], secs[|secs| - 1];
    OpenFront(secs, k);
    OrphansNext(secs, k);
    MoreCollects(Merged(front), s, secs[k].name, Open(front, k), NonBlank(secs[k].lines), NonBlank(Orphans(front, k)));
  }

  lemma {:induction false} AddedCollects(merged: seq<Section>, s: Section)
    requires IndexOf(merged, s.name) == |merged|
    ensures Collects(merged + [s], s.name, true, NonBlank(s.lines), [])
  {
    AddedIndex(merged, s);
    assert NonBlank(s.lines) + [] == NonBlank(s.lines);
  }

  lemma {:induction false} MoreCollects(merged: seq<Section>, s: Section, name: string, open: bool, own: seq<string>,
                                        orphans: seq<string>)
    requires merged != [] && Collects(merged, name, open, own, orphans)
    ensures Collects(WithNext(merged, s), name, open && !Begins(s), own,
                     orphans + if open && !Begins(s) then NonBlank(s.lines) else [])
  {
    assert orphans + [] == orphans;
    if Begins(s) {
      AddedOther(merged, s, name);
    } else {
      LastAttached(merged, s.lines, name);
      SumOfSums(own, orphans, NonBlank(s.lines));
    }
  }

  lemma {:induction false} AddedIndex(secs: seq<Section>, s: Section)
    requires IndexOf(secs, s.name) == |secs|
    ensures IndexOf(secs + [s], s.name) == |secs|
  {
    var q := secs + [s];
    assert q[|secs|] == s;
    forall i | 0 <= i < |secs| ensures q[i].name != s.name {
      assert q[i] == secs[i];
    }
  }

  lemma {:induction false} AddedOther(secs: seq<Section>, s: Section, name: string)
    requires IndexOf(secs, name) < |secs|
    ensures IndexOf(secs + [s], name) == IndexOf(secs, name)
  {
    var k, q := IndexOf(secs, name), secs + [s];
    assert forall i :: 0 <= i < |secs| ==> q[i] == secs[i];
    assert q[k].name == name;
  }

  lemma {:induction false} ReplacedIndex(secs: seq<Section>, k: nat, s: Section, name: string)
    requires k < |secs| && s.name == secs[k].name
    ensures IndexOf(secs[k := s], name) == IndexOf(secs, name)
  {
    var q := secs[k := s];
    assert forall i :: 0 <= i < |secs| ==> q[i].name == secs[i].name;
  }

  lemma {:induction false} OrphansNext(secs: seq<Section>, k: nat)
    requires k < |secs| - 1
    ensures NonBlank(Orphans(secs, k))
            == NonBlank(Orphans(secs[..|secs| - 1], k)) + if Open(secs, k) then NonBlank(secs[|secs| - 1].lines) else []
  {
    NonBlankSum(Orphans(secs[..|secs| - 1], k), if Open(secs, k) then secs[|secs| - 1].lines else []);
    assert NonBlank([]) == [];
  }

  /** The last section gets a block of lines. */
  lemma {:induction false} LastAttached(secs: seq<Section>, block: seq<string>, name: string)
    requires secs != [] && IndexOf(secs, name) < |secs|
    ensures var n := |secs| - 1;
            var q, m := secs[n := Section(secs[n].name, Attached(secs[n].lines, block))], IndexOf(secs, name);
            && IndexOf(q, name) == m
            && NonBlank(q[m].lines) == NonBlank(secs[m].lines) + if m == n then NonBlank(block) else []
  {
    var n := |secs| - 1;
    ReplacedIndex(secs, n, Section(secs[n].name, Attached(secs[n].lines, block)), name);
    AttachedNonBlank(secs[n].lines, block);
  }

  /** The lines that are read behind a section's own; those at the end of the text are stripped. */
  function Behind(secs: seq<Section>, k: nat): seq<string>
    requires k < |secs|
  {
    var orphans := NonBlank(Orphans(secs, k));
    if Open(secs, k) then LastStrippedOf(orphans) else orphans
  }

  /** A section's own lines as they are read. */
  function Own(secs: seq<Section>, k: nat): seq<string>
    requires k < |secs|
  {
    var own := NonBlank(secs[k].lines);
    if Open(secs, k) && NonBlank(Orphans(secs, k)) == [] then LastStrippedOf(own) else own
  }

  lemma {:induction false} LastStrippedSum(a: seq<string>, b: seq<string>)
    ensures LastStrippedOf(a + b) == if b == [] then LastStrippedOf(a) else a + LastStrippedOf(b)
  {
    if b == [] {
      assert a + b == a;
    } else {
      assert (a + b)[..|a + b| - 1] == a + b[..|b| - 1];
    }
  }

  lemma {:induction false} FinalSection(secs: seq<Section>, m: nat)
    requires Shaped(secs) && m < |secs|
    ensures IndexOf(Final(secs), secs[m].name) == m
    ensures NonBlank(Final(secs)[m].lines)
            == if m == |secs| - 1 then LastStrippedOf(NonBlank(secs[m].lines)) else NonBlank(secs[m].lines)
  {
    FinalIndex(secs, m);
    if m == |secs| - 1 {
      LastLinesNonBlank(secs[m].lines, |secs| == 1);
    } else {
      EndBlankNonBlank(secs[m].lines);
    }
  }

  lemma {:induction false} MergedReads(secs: seq<Section>, k: nat)
    requires Mergeable(secs) && k < |secs| && (k == 0 || Begins(secs[k]))
    ensures var after := Final(Merged(secs));
            var m := IndexOf(after, secs[k].name);
            m < |after| && NonBlank(after[m].lines) == Own(secs, k) + Behind(secs, k)
  {
    MergedShaped(secs);
    MergedCollects(secs, k);
    FinalSection(Merged(secs), IndexOf(Merged(secs), secs[k].name));
    LastStrippedSum(NonBlank(secs[k].lines), NonBlank(Orphans(secs, k)));
  }

  /** A section that keeps its header is read back with its own lines and, behind them, the lines of the sections after
      it that lost theirs. */
  lemma {:induction false} SectionReadsBack(text: string, us: seq<SectionUpdate>, k: nat)
    requires Clean(us) && k < |UpdateAll(Split(SplitLines(text)).sections, us)|
    requires var secs := UpdateAll(Split(SplitLines(text)).sections, us);
             k == 0 || !Loses(us, secs[k].name)
    ensures var (secs, after) := (UpdateAll(Split(SplitLines(text)).sections, us),
                                  Split(SplitLines(UpdatedText(text, us))).sections);
            var m := IndexOf(after, secs[k].name);
            m < |after| && NonBlank(after[m].lines) == Own(secs, k) + Behind(secs, k)
  {
    UpdateReadsBack(text, us);
    SplitShaped(SplitLines(text));
    AllMergeable(Split(SplitLines(text)).sections, us, k);
    MergedReads(UpdateAll(Split(SplitLines(text)).sections, us), k);
  }

  // ----- whether updates take effect

  lemma {:induction false} BlankStays(l: string, values: seq<Entry>)
    requires Blank(l)
    ensures RewriteLine(l, values) == l && KeyOf(l) == None
  {
    BlankIsNoHeader(l);
  }

  /** Blank lines set no key. */
  lemma {:induction false} SeenNonBlank(ls: seq<string>, key: string)
    ensures Seen(NonBlank(ls), key) <==> Seen(ls, key)
  {
    if ls == [] {
      assert NonBlank([]) == [];
    } else {
      var front, last := ls[..|ls| - 1], ls[|ls| - 1];
      assert ls == front + [last];
      SeenNonBlank(front, key);
      NonBlankNext(front, last);
      SeenGrows(front, last);
      SeenGrows(NonBlank(front), last);
      if Blank(last) {
        BlankStays(last, []);
      }
    }
  }

  lemma {:induction false} NonBlankLines(ls: seq<string>, l: string)
    ensures l in NonBlank(ls) <==> l in ls && !Blank(l)
  {
    if ls == [] {
      assert NonBlank([]) == [];
    } else {
      var front, last := ls[..|ls| - 1], ls[|ls| - 1];
      assert ls == front + [last];
      NonBlankLines(front, l);
      NonBlankNext(front, last);
    }
  }

  /** Blank lines settle nothing and unsettle nothing. */
  lemma {:induction false} SettledNonBlank(ls: seq<string>, values: seq<Entry>)
    ensures Settled(NonBlank(ls), values) <==> Settled(ls, values)
  {
    SettledMeans(ls, values);
    SettledMeans(NonBlank(ls), values);
    forall k | 0 <= k < |values| ensures Seen(NonBlank(ls), values[k].key) <==> Seen(ls, values[k].key) {
      SeenNonBlank(ls, values[k].key);
    }
    forall l: string ensures l in NonBlank(ls) <==> l in ls && !Blank(l) {
      NonBlankLines(ls, l);
    }
    forall l | l in ls && Blank(l) ensures RewriteLine(l, values) == l {
      BlankStays(l, values);
    }
  }

  /** `Settled` in terms of the lines rather than their places. */
  lemma {:induction false} SettledMeans(ls: seq<string>, values: seq<Entry>)
    ensures Settled(ls, values) <==> (forall l :: l in ls ==> RewriteLine(l, values) == l)
                                     && forall k :: 0 <= k < |values| ==> Seen(ls, values[k].key)
  {
    if Settled(ls, values) {
      forall l | l in ls ensures RewriteLine(l, values) == l {
        var i :| 0 <= i < |ls| && ls[i] == l;
      }
    }
  }

  lemma {:induction false} LastStrippedSettled(ls: seq<string>, values: seq<Entry>)
    requires CleanValues(values) && Settled(ls, values)
    ensures Settled(LastStrippedOf(ls), values)
  {
    if ls != [] {
      assert ls == ls[..|ls| - 1] + [ls[|ls| - 1]];
      SettledStripped(ls[..|ls| - 1], ls[|ls| - 1], values);
    }
  }

  lemma {:induction false} SettledSum(a: seq<string>, b: seq<string>, values: seq<Entry>)
    requires Settled(a, values)
    ensures Settled(a + b, values) <==> forall l :: l in b ==> RewriteLine(l, values) == l
  {
    SettledMeans(a, values);
    SettledMeans(a + b, values);
    forall k | 0 <= k < |values| ensures Seen(a + b, values[k].key) {
      SeenSum(a, b, values[k].key);
    }
  }

  lemma {:induction false} SettledBehind(secs: seq<Section>, k: nat, read: seq<string>, values: seq<Entry>)
    requires CleanValues(values) && k < |secs| && Settled(secs[k].lines, values)
    requires NonBlank(read) == Own(secs, k) + Behind(secs, k)
    ensures Settled(read, values) <==> forall l :: l in Behind(secs, k) ==> RewriteLine(l, values) == l
  {
    SettledNonBlank(secs[k].lines, values);
    SettledNonBlank(read, values);
    LastStrippedSettled(NonBlank(secs[k].lines), values);
    SettledSum(Own(secs, k), Behind(secs, k), values);
  }

  /** Afterwards every key has a line in its section and each of its lines there has the formatted value, exactly if the
      section keeps its header and no line that came behind it from another section sets a key differently. */
  lemma {:induction false} UpdatesTakeEffect(text: string, us: seq<SectionUpdate>, j: nat)
    requires Clean(us) && j < |us|
    ensures var secs := UpdateAll(Split(SplitLines(text)).sections, us);
            var k := IndexOf(secs, us[j].name);
            k < |secs| && (SettledIn(Split(SplitLines(UpdatedText(text, us))).sections, us[j]) <==>
              KeepsHeader(us[j]) && forall l :: l in Behind(secs, k) ==> RewriteLine(l, us[j].values) == l)
  {
    var secs := UpdateAll(Split(SplitLines(text)).sections, us);
    var after := Split(SplitLines(UpdatedText(text, us))).sections;
    SplitShaped(SplitLines(text));
    AllSettled(Split(SplitLines(text)).sections, us, j);
    if KeepsHeader(us[j]) {
      KeptLoses(us, j);
      var k := IndexOf(secs, us[j].name);
      SectionReadsBack(text, us, k);
      SettledBehind(secs, k, after[IndexOf(after, us[j].name)].lines, us[j].values);
    } else {
      SectionLost(text, us, j);
    }
  }

  lemma {:induction false} KeptLoses(us: seq<SectionUpdate>, j: nat)
    requires Clean(us) && j < |us| && KeepsHeader(us[j])
    ensures !Loses(us, us[j].name)
  {
  }

  // ----- what happens to a header that reads as a line to rewrite

  /** No line is a header of that name. */
  predicate NoHeader(ls: seq<string>, name: string) {
    forall l :: l in ls && IsHeader(l) ==> HeaderName(l) != name
  }

  ghost predicate NoHeaders(secs: seq<Section>, name: string) {
    forall k :: 0 <= k < |secs| ==> NoHeader(secs[k].lines, name)
  }

  lemma {:induction false} NewLinesNoHeader(s: Section, values: seq<Entry>, name: string)
    requires CleanValues(values) && HeadersOf(s)
    requires NoHeader(s.lines, name) || (s.name == name && !KeepsHeader(SectionUpdate(name, values)))
    ensures NoHeader(NewLines(s.lines, values), name)
  {
    forall l | l in NewLines(s.lines, values) && IsHeader(l) ensures HeaderName(l) != name {
      NewLine(s.lines, values, l);
      HeaderLine(l);
    }
  }

  /** A section that has other headers only has none of that name. */
  lemma {:induction false} OtherName(s: Section, name: string)
    requires HeadersOf(s) && s.name != name
    ensures NoHeader(s.lines, name)
  {
    forall l | l in s.lines && IsHeader(l) ensures HeaderName(l) != name {
      var i :| 0 <= i < |s.lines| && s.lines[i] == l;
    }
  }

  /** An update that does not keep its header leaves no header of its name. */
  lemma {:induction false} HeaderLost(secs: seq<Section>, u: SectionUpdate)
    requires Orderly(secs) && CleanValues(u.values) && !KeepsHeader(u)
    ensures NoHeaders(UpdateSection(secs, u), u.name)
  {
    var r := WithSection(secs, u.name);
    var k, q := IndexOf(r, u.name), UpdateSection(secs, u);
    WithSectionOrderly(secs, u.name);
    forall i | 0 <= i < |q| ensures NoHeader(q[i].lines, u.name) {
      assert HeadersOf(r[i]);
      if i == k {
        NewLinesNoHeader(r[k], u.values, u.name);
      } else {
        OtherName(r[i], u.name);
      }
    }
  }

  /** Another update brings none back. */
  lemma {:induction false} StaysLost(secs: seq<Section>, u: SectionUpdate, name: string)
    requires Orderly(secs) && CleanValues(u.values) && u.name != name && NoHeaders(secs, name)
    ensures NoHeaders(UpdateSection(secs, u), name)
  {
    var r := WithSection(secs, u.name);
    var k, q := IndexOf(r, u.name), UpdateSection(secs, u);
    WithSectionOrderly(secs, u.name);
    forall i | 0 <= i < |q| ensures NoHeader(q[i].lines, name) {
      assert HeadersOf(r[i]);
      if i == k {
        OtherName(r[k], name);
        NewLinesNoHeader(r[k], u.values, name);
      } else {
        assert r[i] == secs[i];
      }
    }
  }

  lemma {:induction false} AllLost(secs: seq<Section>, us: seq<SectionUpdate>, j: nat)
    requires Orderly(secs) && Clean(us) && j < |us| && !KeepsHeader(us[j])
    ensures NoHeaders(UpdateAll(secs, us), us[j].name)
  {
    var front, u := us[..|us| - 1], us[|us| - 1];
    LastUpdate(us);
    AllOrderly(secs, front);
    if j == |us| - 1 {
      HeaderLost(UpdateAll(secs, front), u);
    } else {
      AllLost(secs, front, j);
      StaysLost(UpdateAll(secs, front), u, us[j].name);
    }
  }

  lemma {:induction false} AssembledNoHeader(secs: seq<Section>, name: string)
    requires NoHeaders(secs, name)
    ensures NoHeader(Assembled(secs), name)
  {
    if secs != [] {
      AssembledNoHeader(secs[..|secs| - 1], name);
      BlankIsNoHeader("");
      assert NoHeader(secs[|secs| - 1].lines, name);
    }
  }

  lemma {:induction false} TrimmedNoHeader(ls: seq<string>, name: string)
    requires NoHeader(ls, name)
    ensures NoHeader(Trimmed(ls), name)
  {
    if ls != [] {
      var front, last := ls[..|ls| - 1], ls[|ls| - 1];
      assert forall l :: l in front ==> l in ls;
      assert last in ls;
      TrimmedNoHeader(front, name);
      StripRightTwice(last);
      assert Strip(StripRight(last)) == Strip(last);
    }
  }

  /** A text without a header has no section of its name. */
  lemma {:induction false} SplitAbsent(lines: seq<string>, name: string)
    requires NoHeader(lines, name) && name != ROOT
    ensures IndexOf(Split(lines).sections, name) == |Split(lines).sections| && Split(lines).current != name
  {
    if lines != [] {
      var front, last := lines[..|lines| - 1], lines[|lines| - 1];
      assert forall l :: l in front ==> l in lines;
      assert last in lines;
      SplitAbsent(front, name);
      AppendedAbsent(Split(front).sections, if IsHeader(last) then HeaderName(last) else Split(front).current, last,
                     name);
    }
  }

  lemma {:induction false} AppendedAbsent(secs: seq<Section>, other: string, line: string, name: string)
    requires IndexOf(secs, name) == |secs| && other != name
    ensures IndexOf(Appended(secs, other, line), name) == |Appended(secs, other, line)|
  {
    var q := Appended(secs, other, line);
    forall i | 0 <= i < |q| ensures q[i].name != name {
      assert i < |secs| ==> q[i].name == secs[i].name;
    }
  }

  // ----- how many lines there are

  /** The number of lines that are not blank. */
  function Solids(ls: seq<string>): nat {
    if ls == [] then 0 else Solids(ls[..|ls| - 1]) + if Blank(ls[|ls| - 1]) then 0 else 1
  }

  function SectionSolids(secs: seq<Section>): nat {
    if secs == [] then 0 else SectionSolids(secs[..|secs| - 1]) + Solids(secs[|secs| - 1].lines)
  }

  lemma {:induction false} SolidsSum(a: seq<string>, b: seq<string>)
    ensures Solids(a + b) == Solids(a) + Solids(b)
  {
    if b == [] {
      assert a + b == a;
    } else {
      SolidsSum(a, b[..|b| - 1]);
      assert (a + b)[..|a + b| - 1] == a + b[..|b| - 1];
    }
  }

  lemma {:induction false} SolidsOne(l: string)
    ensures Solids([l]) == if Blank(l) then 0 else 1
  {
    assert [l][..0] == [];
  }

  lemma {:induction false} TrimmedSolids(ls: seq<string>)
    ensures Solids(Trimmed(ls)) == Solids(ls)
  {
    if ls != [] {
      var front, last := ls[..|ls| - 1], ls[|ls| - 1];
      if Blank(last) {
        TrimmedSolids(front);
      } else {
        StripRightTwice(last);
        assert (front + [StripRight(last)])[..|front|] == front;
      }
    }
  }

  lemma {:induction false} AssembledSolids(secs: seq<Section>)
    ensures Solids(Assembled(secs)) == SectionSolids(secs)
  {
    if secs != [] {
      var lines, block := Assembled(secs[..|secs| - 1]), secs[|secs| - 1].lines;
      AssembledSolids(secs[..|secs| - 1]);
      SolidsOne("");
      SolidsSum(lines, [""]);
      SolidsSum(EndBlank(lines), block);
    }
  }

  /** One section gets other lines. */
  lemma {:induction false} ReplacedSolids(secs: seq<Section>, k: nat, s: Section)
    requires k < |secs|
    ensures SectionSolids(secs[k := s]) + Solids(secs[k].lines) == SectionSolids(secs) + Solids(s.lines)
  {
    var n := |secs| - 1;
    if k == n {
      assert secs[k := s][..n] == secs[..n];
    } else {
      ReplacedSolids(secs[..n], k, s);
      assert secs[k := s][..n] == secs[..n][k := s];
    }
  }

  lemma {:induction false} AddedSolids(secs: seq<Section>, s: Section)
    ensures SectionSolids(secs + [s]) == SectionSolids(secs) + Solids(s.lines)
  {
    assert (secs + [s])[..|secs|] == secs;
  }

  lemma {:induction false} SplitSolids(lines: seq<string>)
    ensures SectionSolids(Split(lines).sections) == Solids(lines)
  {
    if lines == [] {
      assert [Section(ROOT, [])][..0] == [];
    } else {
      var p, last := Split(lines[..|lines| - 1]), lines[|lines| - 1];
      SplitSolids(lines[..|lines| - 1]);
      AppendedSolids(p.sections, if IsHeader(last) then HeaderName(last) else p.current, last);
    }
  }

  lemma {:induction false} AppendedSolids(secs: seq<Section>, name: string, line: string)
    ensures SectionSolids(Appended(secs, name, line)) == SectionSolids(secs) + if Blank(line) then 0 else 1
  {
    var k := IndexOf(secs, name);
    SolidsOne(line);
    if k < |secs| {
      SolidsSum(secs[k].lines, [line]);
      ReplacedSolids(secs, k, Section(name, secs[k].lines + [line]));
    } else {
      AddedSolids(secs, Section(name, [line]));
    }
  }

  lemma {:induction false} RewrittenSolids(ls: seq<string>, values: seq<Entry>)
    requires CleanValues(values)
    ensures Solids(Rewritten(ls, values)) == Solids(ls)
  {
    if ls != [] {
      RewrittenSolids(ls[..|ls| - 1], values);
      assert Rewritten(ls, values)[..|ls| - 1] == Rewritten(ls[..|ls| - 1], values);
      RewrittenLine(ls[|ls| - 1], values);
      if Blank(ls[|ls| - 1]) {
        BlankIsNoHeader(ls[|ls| - 1]);
      }
    }
  }

  /** An update makes no line disappear, and a section that is not there adds lines. */
  lemma {:induction false} UpdateSolids(secs: seq<Section>, u: SectionUpdate)
    requires CleanValues(u.values)
    ensures SectionSolids(UpdateSection(secs, u)) >= SectionSolids(secs)
    ensures IndexOf(secs, u.name) == |secs| ==> SectionSolids(UpdateSection(secs, u)) > SectionSolids(secs)
  {
    var r := WithSection(secs, u.name);
    var k := IndexOf(r, u.name);
    var ls := r[k].lines;
    SolidsSum(Rewritten(ls, u.values), Missing(ls, u.values, |u.values|));
    RewrittenSolids(ls, u.values);
    ReplacedSolids(r, k, Section(u.name, NewLines(ls, u.values)));
    if IndexOf(secs, u.name) == |secs| {
      AddedSolids(secs, Section(u.name, [Header(u.name)]));
      MadeHeader(u.name);
      SolidsOne(Header(u.name));
    }
  }

  lemma {:induction false} StillAbsent(secs: seq<Section>, us: seq<SectionUpdate>, name: string)
    requires IndexOf(secs, name) == |secs| && forall i :: 0 <= i < |us| ==> us[i].name != name
    ensures IndexOf(UpdateAll(secs, us), name) == |UpdateAll(secs, us)|
  {
    if us != [] {
      var before, u := UpdateAll(secs, us[..|us| - 1]), us[|us| - 1];
      StillAbsent(secs, us[..|us| - 1], name);
      var q := UpdateSection(before, u);
      forall i | 0 <= i < |q| ensures q[i].name != name {
        assert i < |before| ==> before[i].name != name;
      }
    }
  }

  lemma {:induction false} AllSolids(secs: seq<Section>, us: seq<SectionUpdate>)
    requires Clean(us)
    ensures SectionSolids(UpdateAll(secs, us)) >= SectionSolids(secs)
  {
    if us != [] {
      LastUpdate(us);
      AllSolids(secs, us[..|us| - 1]);
      UpdateSolids(UpdateAll(secs, us[..|us| - 1]), us[|us| - 1]);
    }
  }

  lemma {:induction false} MoreSolids(secs: seq<Section>, us: seq<SectionUpdate>, j: nat)
    requires Clean(us) && j < |us| && IndexOf(secs, us[j].name) == |secs|
    ensures SectionSolids(UpdateAll(secs, us)) > SectionSolids(secs)
  {
    var front, u := us[..|us| - 1], us[|us| - 1];
    LastUpdate(us);
    UpdateSolids(UpdateAll(secs, front), u);
    if j == |us| - 1 {
      AllSolids(secs, front);
      StillAbsent(secs, front, u.name);
    } else {
      MoreSolids(secs, front, j);
    }
  }

  // ----- the lines of an updated text

  lemma {:induction false} AssembledFits(secs: seq<Section>)
    requires LinesFit(secs)
    ensures AllOneLine(Assembled(secs))
  {
    if secs != [] {
      AssembledFits(secs[..|secs| - 1]);
      assert AllOneLine(secs[|secs| - 1].lines);
    }
  }

  lemma {:induction false} UpdatedLines(text: string, us: seq<SectionUpdate>)
    requires Clean(us)
    ensures var t := Trimmed(Assembled(UpdateAll(Split(SplitLines(text)).sections, us)));
            SplitLines(UpdatedText(text, us)) == if t == [] then [""] else t
  {
    var secs := UpdateAll(Split(SplitLines(text)).sections, us);
    var t := Trimmed(Assembled(secs));
    SplitFits(SplitLines(text));
    AllFit(Split(SplitLines(text)).sections, us);
    AssembledFits(secs);
    TrimmedOneLine(Assembled(secs));
    StripJoined(Assembled(secs));
    if t == [] {
      SplitJoined([""]);
    } else {
      SplitJoined(t);
    }
  }

  lemma {:induction false} UpdatedSolids(text: string, us: seq<SectionUpdate>)
    requires Clean(us)
    ensures Solids(SplitLines(UpdatedText(text, us))) == SectionSolids(UpdateAll(Split(SplitLines(text)).sections, us))
  {
    var secs := UpdateAll(Split(SplitLines(text)).sections, us);
    UpdatedLines(text, us);
    TrimmedSolids(Assembled(secs));
    AssembledSolids(secs);
    SolidsOne("");
  }

  /** A section whose header reads as a line to rewrite is not there when the text is read again. */
  lemma {:induction false} SectionLost(text: string, us: seq<SectionUpdate>, j: nat)
    requires Clean(us) && j < |us| && !KeepsHeader(us[j])
    ensures var after := Split(SplitLines(UpdatedText(text, us))).sections;
            IndexOf(after, us[j].name) == |after|
  {
    var secs := Split(SplitLines(text)).sections;
    SplitShaped(SplitLines(text));
    AllLost(secs, us, j);
    AssembledNoHeader(UpdateAll(secs, us), us[j].name);
    TrimmedNoHeader(Assembled(UpdateAll(secs, us)), us[j].name);
    UpdatedLines(text, us);
    BlankIsNoHeader("");
    NotRoot(us[j]);
    SplitAbsent(SplitLines(UpdatedText(text, us)), us[j].name);
  }

  /** The root's name is not empty and has no `=` in it. */
  lemma {:induction false} NotRoot(u: SectionUpdate)
    requires !KeepsHeader(u)
    ensures u.name != ROOT
  {
    HeaderStrips(u.name);
    assert u.name != "" ==> '=' in u.name;
  }

  /** Updating twice is updating once exactly when no section's own header reads as a line that sets one of its keys. */
  lemma {:induction false} UpdateIsIdempotent(text: string, us: seq<SectionUpdate>)
    requires Clean(us)
    ensures UpdatedText(UpdatedText(text, us), us) == UpdatedText(text, us) <==> HeadersKept(us)
  {
    if HeadersKept(us) {
      KeptIsIdempotent(text, us);
    } else {
      var j :| 0 <= j < |us| && !KeepsHeader(us[j]);
      var once := UpdatedText(text, us);
      SectionLost(text, us, j);
      MoreSolids(Split(SplitLines(once)).sections, us, j);
      SplitSolids(SplitLines(once));
      UpdatedSolids(once, us);
    }
  }

  // ----- updates after which a second one changes the text again

  lemma {:induction false} PrintableOneLine(s: string)
    requires forall c :: c in s ==> ' ' <= c <= '~'
    ensures OneLine(s)
  {
    forall c | c in s ensures !IsBreak(c) {
      CharFacts(c);
    }
  }

  /** The key of a line with something behind the `=`. */
  lemma {:induction false} KeyOfLine(k: string, rest: string)
    requires k != "" && CleanKey(k) && rest != "" && !IsSpace(rest[|rest| - 1])
    ensures KeyOf(k + " =" + rest) == Some(k)
  {
    var t := k + " =" + rest;
    CleanEnds(k);
    StripSolid(t);
    assert t[|k| + 1] == '=';
    forall i | 0 <= i <= |k| ensures t[i] != '=' {
      assert i < |k| ==> t[i] == k[i] && k[i] in k;
    }
    assert t[..|k| + 1] == k + " ";
    StripsBack(k);
  }

  lemma {:induction false} HeaderReadsAsKey(name: string, k: string, rest: string, v: Value)
    requires k != "" && CleanKey(k) && rest != "" && !IsSpace(rest[|rest| - 1]) && Header(name) == k + " =" + rest
    ensures !KeepsHeader(SectionUpdate(name, [Entry(k, v)]))
  {
    KeyOfLine(k, rest);
    assert Find([Entry(k, v)], k) == 0;
  }

  lemma {:induction false} CleanOne(name: string, k: string, v: Value)
    requires OneLine(name) && CleanKey(k) && CleanValue(v)
    ensures Clean([SectionUpdate(name, [Entry(k, v)])])
  {
    var values := [Entry(k, v)];
    assert CleanValues(values);
  }

  /** A key of two printable characters that begins with a bracket. */
  predicate Printable(s: string) {
    forall c :: c in s ==> ' ' < c <= '~' && c != '=' && c != '#'
  }

  lemma {:induction false} PrintableKey(k: string)
    requires k != "" && Printable(k)
    ensures CleanKey(k)
  {
    assert k[0] in k && k[|k| - 1] in k;
    CharFacts(k[0]);
    CharFacts(k[|k| - 1]);
    StripSolid(k);
    PrintableOneLine(k);
  }

  /** The section's header reads as setting the key. */
  predicate HeaderSetsKey(name: string, k: string, rest: string) {
    && k != "" && Printable(k) && rest != "" && Printable(rest[|rest| - 1..])
    && (forall c :: c in name ==> ' ' <= c <= '~')
    && Header(name) == k + " =" + rest
  }

  /** As `[a = b]` does for the key `[a`. */
  lemma {:induction false} SomeHeaderSetsKey()
    ensures HeaderSetsKey("a = b", "[a", " b]")
  {
  }

  lemma {:induction false} HeaderUpdateClean(name: string, k: string, rest: string, v: Value)
    requires HeaderSetsKey(name, k, rest) && CleanValue(v)
    ensures Clean([SectionUpdate(name, [Entry(k, v)])]) && !KeepsHeader(SectionUpdate(name, [Entry(k, v)]))
  {
    assert rest[|rest| - 1] in rest[|rest| - 1..];
    CharFacts(rest[|rest| - 1]);
    PrintableKey(k);
    PrintableOneLine(name);
    CleanOne(name, k, v);
    HeaderReadsAsKey(name, k, rest, v);
  }

  /** For every text the second update of such a section differs from the first. */
  lemma {:induction false} SecondUpdateChanges(text: string, name: string, k: string, rest: string, v: Value)
    requires HeaderSetsKey(name, k, rest) && CleanValue(v)
    ensures var us := [SectionUpdate(name, [Entry(k, v)])];
            Clean(us) && UpdatedText(UpdatedText(text, us), us) != UpdatedText(text, us)
  {
    var us := [SectionUpdate(name, [Entry(k, v)])];
    HeaderUpdateClean(name, k, rest, v);
    assert !KeepsHeader(us[0]);
    UpdateIsIdempotent(text, us);
  }

  /** So it does for the section without a name. */
  lemma {:induction false} NamelessUpdateChanges(text: string, values: seq<Entry>)
    requires CleanValues(values)
    ensures var us := [SectionUpdate("", values)];
            Clean(us) && UpdatedText(UpdatedText(text, us), us) != UpdatedText(text, us)
  {
    var us := [SectionUpdate("", values)];
    assert !KeepsHeader(us[0]);
    UpdateIsIdempotent(text, us);
  }

  lemma {:induction false} NoKey(name: string)
    requires '=' !in name
    ensures KeyOf(Header(name)) == None
  {
    HeaderStrips(name);
  }

  /** An update of one key makes a section of two lines. */
  lemma {:induction false} MadeSection(secs: seq<Section>, name: string, k: string, v: Value)
    requires IndexOf(secs, name) == |secs| && '=' !in name
    ensures UpdateSection(secs, SectionUpdate(name, [Entry(k, v)]))
            == secs + [Section(name, [Header(name), FormatValue(k, v)])]
  {
    var ls, values := [Header(name)], [Entry(k, v)];
    NoKey(name);
    assert ls[..0] == [] && !Seen(ls, k);
    assert Missing(ls, values, 0) == [] && Missing(ls, values, 1) == [FormatValue(k, v)];
    assert Rewritten(ls, values) == ls && ls + [FormatValue(k, v)] == [Header(name), FormatValue(k, v)];
    AddedIndex(secs, Section(name, ls));
    var r := secs + [Section(name, ls)];
    assert r[|secs| := Section(name, NewLines(ls, values))] == secs + [Section(name, NewLines(ls, values))];
  }

  /** The same key is set in a section and then in the section without a name. */
  function TwoSections(name: string, k: string, v: Value, w: Value): seq<SectionUpdate> {
    [SectionUpdate(name, [Entry(k, v)]), SectionUpdate("", [Entry(k, w)])]
  }

  lemma {:induction false} TwoSectionsMade(name: string, k: string, v: Value, w: Value)
    requires name != "" && name != ROOT && '=' !in name
    ensures UpdateAll(Split(SplitLines("")).sections, TwoSections(name, k, v, w)) ==
              [Section(ROOT, []), Section(name, [Header(name), FormatValue(k, v)]),
               Section("", [Header(""), FormatValue(k, w)])]
  {
    var us, root := TwoSections(name, k, v, w), [Section(ROOT, [])];
    assert us[..1] == [us[0]] && us[..1][..0] == [];
    assert UpdateAll(root, []) == root && UpdateAll(root, us[..1]) == UpdateSection(root, us[0]);
    MadeSection(root, name, k, v);
    MadeSection(root + [Section(name, [Header(name), FormatValue(k, v)])], "", k, w);
  }

  lemma {:induction false} TwoSectionsClean(name: string, k: string, v: Value, w: Value)
    requires name != "" && OneLine(name) && '=' !in name && CleanKey(k) && CleanValue(v) && CleanValue(w)
    ensures Clean(TwoSections(name, k, v, w)) && KeepsHeader(TwoSections(name, k, v, w)[0])
  {
    NoKey(name);
    CleanOne(name, k, v);
    CleanOne("", k, w);
    assert CleanValues([SectionUpdate(name, [Entry(k, v)])][0].values);
    assert CleanValues([SectionUpdate("", [Entry(k, w)])][0].values);
  }

  lemma {:induction false} NonBlankTwo(a: string, b: string)
    requires !Blank(a) && !Blank(b)
    ensures NonBlank([a, b]) == [a, b] && LastStrippedOf([a, b]) == [a, StripRight(b)]
  {
    NonBlankOne(a);
    NonBlankNext([a], b);
    LastStrippedNext([a], b);
    assert [a] + [b] == [a, b];
  }

  lemma {:induction false} OneOrphan(secs: seq<Section>)
    requires |secs| == 3
    ensures Orphans(secs, 1) == if Open(secs, 1) then secs[2].lines else []
  {
    assert Orphans(secs[..2], 1) == [];
    assert [] + secs[2].lines == secs[2].lines;
  }

  lemma {:induction false} BehindMade(secs: seq<Section>, a: string, b: string)
    requires |secs| == 3 && secs[2].lines == [a, b] && !IsHeader(a) && !Blank(a) && !Blank(b) && StripRight(b) == b
    ensures b in Behind(secs, 1)
  {
    OneOrphan(secs);
    NonBlankTwo(a, b);
    assert [a, b][1] == b;
  }

  lemma {:induction false} TwoSectionsBehind(secs: seq<Section>, name: string, k: string, v: Value, w: Value)
    requires name != ROOT && CleanKey(k) && FormatValue(k, v) != FormatValue(k, w)
    requires |secs| == 3 && secs[0].name == ROOT && secs[1].name == name
    requires secs[2].lines == [Header(""), FormatValue(k, w)]
    ensures IndexOf(secs, name) == 1
    ensures FormatValue(k, w) in Behind(secs, 1) && RewriteLine(FormatValue(k, w), [Entry(k, v)]) != FormatValue(k, w)
  {
    MadeHeader("");
    FormattedKey(k, w);
    BehindMade(secs, Header(""), FormatValue(k, w));
    assert Find([Entry(k, v)], k) == 0;
  }

  /** In the empty text the lines of the section without a name are read behind those of the other section and set its key
      to another value. */
  lemma {:induction false} LostLinesUnsettle(name: string, k: string, v: Value, w: Value)
    requires name != "" && name != ROOT && OneLine(name) && '=' !in name
    requires CleanKey(k) && CleanValue(v) && CleanValue(w) && FormatValue(k, v) != FormatValue(k, w)
    ensures var us := TwoSections(name, k, v, w);
            && Clean(us) && KeepsHeader(us[0])
            && !SettledIn(Split(SplitLines(UpdatedText("", us))).sections, us[0])
  {
    TwoSectionsClean(name, k, v, w);
    TwoSectionsMade(name, k, v, w);
    TwoSectionsBehind(UpdateAll(Split(SplitLines("")).sections, TwoSections(name, k, v, w)), name, k, v, w);
    UpdatesTakeEffect("", TwoSections(name, k, v, w), 0);
  }

  // ----- what survives

  function Keeper(values: seq<Entry>): string -> seq<string> {
    l => if Blank(l) || Targeted(l, values) then [] else [StripRight(l)]
  }

  /** The lines that are neither blank nor set one of the keys, without space at their end. */
  function Kept(ls: seq<string>, values: seq<Entry>): seq<string> {
    Gathered(Keeper(values), ls)
  }

  lemma {:induction false} RewritingKeeps(ls: seq<string>, values: seq<Entry>)
    requires CleanValues(values)
    ensures Kept(Rewritten(ls, values), values) == Kept(ls, values)
  {
    forall i | 0 <= i < |ls| ensures Keeper(values)(Rewritten(ls, values)[i]) == Keeper(values)(ls[i]) {
      RewrittenLine(ls[i], values);
    }
    GatheredSame(Keeper(values), Rewritten(ls, values), ls);
  }

  lemma {:induction false} AddingKeeps(ls: seq<string>, values: seq<Entry>)
    requires CleanValues(values)
    ensures Kept(Missing(ls, values, |values|), values) == []
  {
    var more := Missing(ls, values, |values|);
    forall i | 0 <= i < |more| ensures Keeper(values)(more[i]) == [] {
      MissingFormatted(ls, values, |values|, i);
      var k :| 0 <= k < |values| && more[i] == FormatValue(values[k].key, values[k].value);
      FormattedStays(values, k);
    }
    GatheredNothing(Keeper(values), more);
  }

  lemma {:induction false} UpdatingKeeps(ls: seq<string>, values: seq<Entry>)
    requires CleanValues(values)
    ensures Kept(NewLines(ls, values), values) == Kept(ls, values)
  {
    RewritingKeeps(ls, values);
    AddingKeeps(ls, values);
    GatheredSum(Keeper(values), Rewritten(ls, values), Missing(ls, values, |values|));
  }

  lemma {:induction false} BlankKeeps(ls: seq<string>, l: string, values: seq<Entry>)
    requires Blank(l)
    ensures Kept(ls + [l], values) == Kept(ls, values)
  {
    assert (ls + [l])[..|ls|] == ls;
  }

  lemma {:induction false} StrippedKeeps(front: seq<string>, last: string, values: seq<Entry>)
    ensures Kept(front + [StripRight(last)], values) == Kept(front + [last], values)
  {
    StripRightTwice(last);
    assert Strip(StripRight(last)) == Strip(last);
    assert Keeper(values)(StripRight(last)) == Keeper(values)(last);
    assert (front + [StripRight(last)])[..|front|] == front && (front + [last])[..|front|] == front;
  }

  /** The keys that are updated in a section. */
  function ValuesFor(us: seq<SectionUpdate>, name: string): seq<Entry> {
    if us == [] then []
    else if us[|us| - 1].name == name then us[|us| - 1].values else ValuesFor(us[..|us| - 1], name)
  }

  /** Sections that no update names stay as they are, at their place. */
  lemma {:induction false} UntouchedSection(secs: seq<Section>, us: seq<SectionUpdate>, k: nat)
    requires Orderly(secs) && Clean(us) && k < |secs| && forall j :: 0 <= j < |us| ==> us[j].name != secs[k].name
    ensures |UpdateAll(secs, us)| >= |secs| && UpdateAll(secs, us)[k] == secs[k]
  {
    if us != [] {
      LastUpdate(us);
      UntouchedSection(secs, us[..|us| - 1], k);
      AllOrderly(secs, us[..|us| - 1]);
      OtherSection(UpdateAll(secs, us[..|us| - 1]), us[|us| - 1], k);
    }
  }

  /** An updated section gets the new lines of its old ones, at its place. */
  lemma {:induction false} TouchedSection(secs: seq<Section>, u: SectionUpdate, k: nat)
    requires Orderly(secs) && k < |secs| && secs[k].name == u.name
    ensures |UpdateSection(secs, u)| >= |secs|
    ensures UpdateSection(secs, u)[k] == Section(u.name, NewLines(secs[k].lines, u.values))
  {
    IndexIs(secs, k);
  }

  lemma {:induction false} SectionKeeps(secs: seq<Section>, us: seq<SectionUpdate>, k: nat)
    requires Orderly(secs) && Clean(us) && k < |secs|
    ensures var r := UpdateAll(secs, us);
            && |r| >= |secs| && r[k].name == secs[k].name
            && Kept(r[k].lines, ValuesFor(us, secs[k].name)) == Kept(secs[k].lines, ValuesFor(us, secs[k].name))
  {
    if us != [] {
      var front, u := us[..|us| - 1], us[|us| - 1];
      var before := UpdateAll(secs, front);
      LastUpdate(us);
      AllOrderly(secs, front);
      if u.name == secs[k].name {
        UntouchedSection(secs, front, k);
        TouchedSection(before, u, k);
        UpdatingKeeps(secs[k].lines, u.values);
      } else {
        SectionKeeps(secs, front, k);
        OtherSection(before, u, k);
      }
    }
  }

  lemma {:induction false} NonBlankKeeps(ls: seq<string>, values: seq<Entry>)
    ensures Kept(NonBlank(ls), values) == Kept(ls, values)
  {
    if ls == [] {
      assert NonBlank([]) == [];
    } else {
      var front, last := ls[..|ls| - 1], ls[|ls| - 1];
      assert ls == front + [last];
      NonBlankKeeps(front, values);
      NonBlankNext(front, last);
      if Blank(last) {
        BlankKeeps(front, last, values);
      } else {
        GatheredSum(Keeper(values), NonBlank(front), [last]);
        GatheredSum(Keeper(values), front, [last]);
      }
    }
  }

  lemma {:induction false} LastStrippedKeeps(ls: seq<string>, values: seq<Entry>)
    ensures Kept(LastStrippedOf(ls), values) == Kept(ls, values)
  {
    if ls != [] {
      assert ls == ls[..|ls| - 1] + [ls[|ls| - 1]];
      StrippedKeeps(ls[..|ls| - 1], ls[|ls| - 1], values);
    }
  }

  lemma {:induction false} ReadKeeps(secs: seq<Section>, k: nat, values: seq<Entry>)
    requires k < |secs|
    ensures Kept(Own(secs, k) + Behind(secs, k), values) == Kept(secs[k].lines, values) + Kept(Orphans(secs, k), values)
  {
    GatheredSum(Keeper(values), Own(secs, k), Behind(secs, k));
    NonBlankKeeps(secs[k].lines, values);
    NonBlankKeeps(Orphans(secs, k), values);
    LastStrippedKeeps(NonBlank(secs[k].lines), values);
    LastStrippedKeeps(NonBlank(Orphans(secs, k)), values);
  }

  /** All other lines of a section that keeps its header survive an update in their order, but for blank lines and
      space at the end; behind them come those of the sections that lost theirs. If all headers are kept there are
      none, and the section stays at its place. */
  lemma {:induction false} OtherLinesSurvive(text: string, us: seq<SectionUpdate>, k: nat)
    requires Clean(us) && k < |Split(SplitLines(text)).sections|
    requires k == 0 || !Loses(us, Split(SplitLines(text)).sections[k].name)
    ensures var (before, after) := (Split(SplitLines(text)).sections,
                                    Split(SplitLines(UpdatedText(text, us))).sections);
            var (secs, m) := (UpdateAll(before, us), IndexOf(after, before[k].name));
            && |secs| >= |before| && m < |after|
            && var values := ValuesFor(us, before[k].name);
               Kept(after[m].lines, values) == Kept(before[k].lines, values) + Kept(Orphans(secs, k), values)
    ensures HeadersKept(us) ==>
              var (before, after) := (Split(SplitLines(text)).sections,
                                      Split(SplitLines(UpdatedText(text, us))).sections);
              IndexOf(after, before[k].name) == k && Orphans(UpdateAll(before, us), k) == []
  {
    var before := Split(SplitLines(text)).sections;
    var after := Split(SplitLines(UpdatedText(text, us))).sections;
    var secs, values := UpdateAll(before, us), ValuesFor(us, before[k].name);
    SplitShaped(SplitLines(text));
    SectionKeeps(before, us, k);
    SectionReadsBack(text, us, k);
    NonBlankKeeps(after[IndexOf(after, before[k].name)].lines, values);
    ReadKeeps(secs, k, values);
    if HeadersKept(us) {
      AllKept(text, us);
      UpdateReadsBack(text, us);
      FinalSection(secs, k);
      NoOrphans(secs, k);
    }
  }

  lemma {:induction false} NoOrphans(secs: seq<Section>, k: nat)
    requires k < |secs| && forall i :: 0 < i < |secs| ==> Begins(secs[i])
    ensures Orphans(secs, k) == []
  {
    if k < |secs| - 1 {
      NoOrphans(secs[..|secs| - 1], k);
      assert Begins(secs[|secs| - 1]);
    }
  }
}
