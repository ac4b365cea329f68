/** The section structure of a `.slang` file: sugar sections, each opened
    by a `> title` line, and a final `MAIN` section whose lines are the
    program. Comment and blank lines are skipped, a `#` starts a comment,
    and lines before the first title belong to no section. */
module Slang {
  import opened Wrappers
  import opened Text
  import opened Lines

  /** What a line of the file is, by the first of the three patterns it
      matches: blank or comment, title, or content line. */
  datatype LineKind = Blank | Title(title: string) | Content(text: string) | Unreadable

  datatype Section = Section(title: string, lines: seq<string>)

  /** The sugar sections in file order, and the lines of `MAIN`. */
  datatype SlangFile = SlangFile(sugars: seq<Section>, main: seq<string>)

  /** The state of the scan: the sections closed so far, the open section
      (its title and lines), whether it is `MAIN`, and whether any title
      has been seen. */
  datatype Scan = Scan(sugars: seq<Section>, title: string, lines: seq<string>, isMain: bool, started: bool)

  /** `\s*(?P<g>.*)\s*` applied to text: the group, if the whole text
      matches. `.*` stops at the first newline, so everything after it must
      be whitespace. */
  function Group(u: string): (r: Option<string>)
    ensures r.Some? ==> LineLength(TrimStart(u)) == |r.value| && r.value == TrimStart(u)[..|r.value|]
  {
    var t := TrimStart(u);
    var n := LineLength(t);
    if AllSpaces(t[n..]) then Some(t[..n]) else None
  }

  /** A line's kind; the text of a title or content line is cut at its
      first `#` and stripped. */
  function Classify(line: string): (k: LineKind)
    ensures k.Title? ==> IsStripped(k.title)
    ensures k.Content? ==> IsStripped(k.text)
    ensures k.Blank? <==> TrimStart(line) == [] || TrimStart(line)[0] == '#'
  {
    var t := TrimStart(line);
    if t == [] || t[0] == '#' then Blank
    else if t[0] == '>' && Group(t[1..]).Some? then Title(Strip(BeforeHash(Group(t[1..]).value)))
    else match Group(line)
      case Some(g) => Content(Strip(BeforeHash(g)))
      case None => Unreadable
  }

  /** `\s*MAIN\s*`, ignoring case, on a stripped title. */
  predicate IsMainTitle(title: string) {
    |title| == 4 && Upper(title[0]) == 'M' && Upper(title[1]) == 'A' &&
    Upper(title[2]) == 'I' && Upper(title[3]) == 'N'
  }

  const Start := Scan([], [], [], false, false)

  /** The sections closed so far, with the open one closed too. */
  function Closed(st: Scan): seq<Section> {
    if st.started then st.sugars + [Section(st.title, st.lines)] else st.sugars
  }

  /** One line of the scan. A title closes the open section (the lines
      before the first title are dropped) and opens a new one; no title
      may follow `MAIN`. */
  function Step(st: Scan, line: string): Result<Scan> {
    match Classify(line)
    case Blank => Success(st)
    case Title(t) =>
      if st.isMain then Failure("Encountered sugar title after MAIN")
      else Success(Scan(Closed(st), t, [], IsMainTitle(t), true))
    case Content(c) => Success(st.(lines := st.lines + [c]))
    case Unreadable => Failure("Failed to compile line")
  }

  /** A step fails on an unreadable line and on a title after `MAIN`; a
      title closes the open section, a content line is added to it and a
      blank line changes nothing. */
  lemma StepEffect(st: Scan, line: string)
    ensures Step(st, line).Success? <==> Classify(line) != Unreadable && !(Classify(line).Title? && st.isMain)
    ensures Step(st, line).Success? && Classify(line).Title? ==>
              var r := Step(st, line).value;
              r.sugars == Closed(st) && r.lines == [] && r.isMain == IsMainTitle(Classify(line).title) && r.started
    ensures Step(st, line).Success? && !Classify(line).Title? ==>
              var r := Step(st, line).value;
              r.(lines := st.lines) == st &&
              r.lines == st.lines + (if Classify(line).Content? then [Classify(line).text] else [])
  {
  }

  function ScanLines(st: Scan, lines: seq<string>): (r: Result<Scan>)
    decreases |lines|
  {
    if lines == [] then Success(st)
    else
      var next :- Step(st, lines[0]);
      ScanLines(next, lines[1..])
  }

  /** The section logic of `compile_slang_file`: a file without a `MAIN`
      section is refused, and `MAIN` is the last section. */
  function SplitSlang(lines: seq<string>): (r: Result<SlangFile>)
  {
    var st :- ScanLines(Start, lines);
    if !st.isMain then Failure("Nonexistent 'MAIN' section!")
    else Success(SlangFile(st.sugars, st.lines))
  }

  // ---------------------------------------------------------------------
  // Where MAIN has to be

  /** Scanning `a + b` is scanning `a`, then `b`. */
  lemma {:induction false} ScanLinesAppend(st: Scan, a: seq<string>, b: seq<string>)
    ensures ScanLines(st, a + b) ==
            match ScanLines(st, a)
            case Success(mid) => ScanLines(mid, b)
            case Failure(e) => Failure(e)
    decreases |a|
  {
    if a == [] {
      assert a + b == b;
    } else {
      assert (a + b)[1..] == a[1..] + b;
      match Step(st, a[0])
      case Success(next) => ScanLinesAppend(next, a[1..], b);
      case Failure(_) =>
    }
  }

  /** Once in `MAIN`, any title line makes the scan fail, and without one
      the scan stays in `MAIN`. */
  lemma {:induction false} ScanInMain(st: Scan, lines: seq<string>)
    requires st.isMain
    ensures ScanLines(st, lines).Success? <==> forall k :: 0 <= k < |lines| ==> Classify(lines[k]).Title? == false && Classify(lines[k]) != Unreadable
    ensures ScanLines(st, lines).Success? ==> ScanLines(st, lines).value.isMain
    decreases |lines|
  {
    if lines != [] {
      StepEffect(st, lines[0]);
      match Step(st, lines[0])
      case Success(next) =>
        ScanInMain(next, lines[1..]);
        assert forall k :: 1 <= k < |lines| ==> lines[k] == lines[1..][k - 1];
      case Failure(_) =>
    }
  }

  /** A scan that ends in `MAIN` started there or read a `MAIN` title. */
  lemma {:induction false} ScanReachesMain(st: Scan, lines: seq<string>)
    requires ScanLines(st, lines).Success? && ScanLines(st, lines).value.isMain
    ensures st.isMain || exists k :: 0 <= k < |lines| && Classify(lines[k]).Title? && IsMainTitle(Classify(lines[k]).title)
    decreases |lines|
  {
    if lines != [] {
      StepEffect(st, lines[0]);
      var next := Step(st, lines[0]).value;
      ScanReachesMain(next, lines[1..]);
      if !next.isMain {
        var k :| 0 <= k < |lines[1..]| && Classify(lines[1..][k]).Title? && IsMainTitle(Classify(lines[1..][k]).title);
        assert lines[1..][k] == lines[k + 1];
      } else if !st.isMain {
        assert Classify(lines[0]).Title? && IsMainTitle(Classify(lines[0]).title);
      }
    }
  }

  /** A file is accepted only if it has a `MAIN` title and no title after
      it. */
  lemma SplitSlangMain(lines: seq<string>)
    requires SplitSlang(lines).Success?
    ensures exists k :: 0 <= k < |lines| && Classify(lines[k]).Title? && IsMainTitle(Classify(lines[k]).title)
  {
    ScanReachesMain(Start, lines);
  }

  /** A title anywhere after a `MAIN` title makes the file unreadable. */
  lemma TitleAfterMain(lines: seq<string>, i: nat, j: nat)
    requires i < j < |lines|
    requires Classify(lines[i]).Title? && IsMainTitle(Classify(lines[i]).title)
    requires Classify(lines[j]).Title?
    ensures SplitSlang(lines).Failure?
  {
    var a := lines[..i + 1];
    var b := lines[i + 1..];
    assert lines == a + b;
    ScanLinesAppend(Start, a, b);
    var front := ScanLines(Start, a);
    if front.Success? {
      assert a == a[..i] + [lines[i]];
      ScanLinesAppend(Start, a[..i], [lines[i]]);
      var mid := ScanLines(Start, a[..i]).value;
      assert [lines[i]][1..] == [];
      assert front.value == Step(mid, lines[i]).value;
      StepEffect(mid, lines[i]);
      ScanInMain(front.value, b);
      assert b[j - i - 1] == lines[j];
    }
  }

  // ---------------------------------------------------------------------
  // Writing sections out and reading them back

  /** Text that survives being read as a title or a content line: no
      comment, no newline, nothing to strip. */
  predicate IsPlainText(t: string) {
    t != [] && IsStripped(t) && (forall k :: 0 <= k < |t| ==> t[k] != '#' && t[k] != '\n')
  }

  predicate IsPlainLine(t: string) {
    IsPlainText(t) && t[0] != '>'
  }

  predicate IsPlainSection(s: Section) {
    IsPlainText(s.title) && !IsMainTitle(s.title) &&
    forall k :: 0 <= k < |s.lines| ==> IsPlainLine(s.lines[k])
  }

  function RenderLines(lines: seq<string>): (r: seq<string>)
    ensures |r| == |lines|
  {
    if lines == [] then [] else [lines[0] + "\n"] + RenderLines(lines[1..])
  }

  function RenderSection(s: Section): seq<string> {
    [">" + s.title + "\n"] + RenderLines(s.lines)
  }

  function RenderSections(ss: seq<Section>): seq<string> {
    if ss == [] then [] else RenderSection(ss[0]) + RenderSections(ss[1..])
  }

  /** The file's lines as `readlines` returns them: each sugar section,
      then `MAIN`. */
  function RenderSlang(f: SlangFile): seq<string> {
    RenderSections(f.sugars) + RenderSection(Section("MAIN", f.main))
  }

  lemma GroupOfPlain(t: string)
    requires IsPlainText(t)
    ensures Group(t + "\n") == Some(t)
  {
    var u := t + "\n";
    assert TrimStart(u) == u;
    LineLengthOf(t, "\n");
    assert u[|t|..] == "\n";
    assert u[..|t|] == t;
  }

  lemma ClassifyTitle(t: string)
    requires IsPlainText(t)
    ensures Classify(">" + t + "\n") == Title(t)
  {
    var line := ">" + t + "\n";
    assert TrimStart(line) == line;
    assert line[1..] == t + "\n";
    GroupOfPlain(t);
    BeforeHashNone(t);
    StripStripped(t);
  }

  lemma ClassifyContent(t: string)
    requires IsPlainLine(t)
    ensures Classify(t + "\n") == Content(t)
  {
    var line := t + "\n";
    assert TrimStart(line) == line;
    GroupOfPlain(t);
    BeforeHashNone(t);
    StripStripped(t);
  }

  lemma StepContent(st: Scan, t: string)
    requires IsPlainLine(t)
    ensures Step(st, t + "\n") == Success(st.(lines := st.lines + [t]))
  {
    ClassifyContent(t);
  }

  lemma StepTitle(st: Scan, t: string)
    requires !st.isMain
    requires IsPlainText(t)
    ensures Step(st, ">" + t + "\n") == Success(Scan(Closed(st), t, [], IsMainTitle(t), true))
  {
    ClassifyTitle(t);
  }

  lemma ScanLinesCons(st: Scan, lines: seq<string>, next: Scan)
    requires lines != [] && Step(st, lines[0]) == Success(next)
    ensures ScanLines(st, lines) == ScanLines(next, lines[1..])
  {
  }

  lemma ScanContentCons(st: Scan, t: string, rest: seq<string>)
    requires IsPlainLine(t)
    ensures ScanLines(st, [t + "\n"] + rest) == ScanLines(st.(lines := st.lines + [t]), rest)
  {
    StepContent(st, t);
    ScanLinesCons(st, [t + "\n"] + rest, st.(lines := st.lines + [t]));
    assert ([t + "\n"] + rest)[1..] == rest;
  }

  /** One content line, then the rest. */
  lemma ScanRenderedLine(st: Scan, t: string, rest: seq<string>, fin: Result<Scan>)
    requires IsPlainLine(t)
    requires ScanLines(st.(lines := st.lines + [t]), RenderLines(rest)) == fin
    ensures ScanLines(st, RenderLines([t] + rest)) == fin
  {
    assert RenderLines([t] + rest) == [t + "\n"] + RenderLines(rest) by {
      assert ([t] + rest)[1..] == rest;
    }
    ScanContentCons(st, t, RenderLines(rest));
  }

  lemma ConsRegroup<T>(a: seq<T>, x: T, b: seq<T>)
    ensures a + [x] + b == a + ([x] + b)
  {
  }

  lemma {:induction false} ScanRenderedLines(st: Scan, lines: seq<string>)
    requires forall k :: 0 <= k < |lines| ==> IsPlainLine(lines[k])
    ensures ScanLines(st, RenderLines(lines)) == Success(st.(lines := st.lines + lines))
    decreases |lines|
  {
    if lines == [] {
      assert st.lines + lines == st.lines;
    } else {
      var t, rest := lines[0], lines[1..];
      var next := st.(lines := st.lines + [t]);
      var fin := st.(lines := st.lines + lines);
      ScanRenderedLines(next, rest);
      assert lines == [t] + rest;
      ConsRegroup(st.lines, t, rest);
      ScanRenderedLine(st, t, rest, Success(fin));
    }
  }

  /** Reading a rendered section closes the open one and leaves the new
      one open with its lines. */
  lemma ScanRenderedSection(st: Scan, s: Section)
    requires !st.isMain
    requires IsPlainText(s.title)
    requires forall k :: 0 <= k < |s.lines| ==> IsPlainLine(s.lines[k])
    ensures ScanLines(st, RenderSection(s)) ==
            Success(Scan(Closed(st), s.title, s.lines, IsMainTitle(s.title), true))
  {
    var r := RenderSection(s);
    StepTitle(st, s.title);
    var begun := Scan(Closed(st), s.title, [], IsMainTitle(s.title), true);
    assert r[0] == ">" + s.title + "\n" && r[1..] == RenderLines(s.lines);
    assert ScanLines(st, r) == ScanLines(begun, r[1..]);
    ScanRenderedLines(begun, s.lines);
    assert [] + s.lines == s.lines;
  }

  /** The first rendered section, then the others. */
  lemma ScanSectionsCons(st: Scan, ss: seq<Section>)
    requires !st.isMain && ss != [] && IsPlainSection(ss[0])
    ensures ScanLines(st, RenderSections(ss)) ==
            ScanLines(Scan(Closed(st), ss[0].title, ss[0].lines, false, true), RenderSections(ss[1..]))
  {
    assert RenderSections(ss) == RenderSection(ss[0]) + RenderSections(ss[1..]);
    ScanLinesAppend(st, RenderSection(ss[0]), RenderSections(ss[1..]));
    ScanRenderedSection(st, ss[0]);
  }

  lemma {:induction false} ScanRenderedSections(st: Scan, ss: seq<Section>)
    requires !st.isMain
    requires forall k :: 0 <= k < |ss| ==> IsPlainSection(ss[k])
    ensures ScanLines(st, RenderSections(ss)).Success?
    ensures var end := ScanLines(st, RenderSections(ss)).value;
            !end.isMain && Closed(end) == Closed(st) + ss && (end.started <==> st.started || ss != [])
    decreases |ss|
  {
    if ss == [] {
      assert Closed(st) + ss == Closed(st);
    } else {
      var mid := Scan(Closed(st), ss[0].title, ss[0].lines, false, true);
      var tail := ss[1..];
      assert forall k :: 0 <= k < |tail| ==> IsPlainSection(tail[k]) by {
        assert forall k :: 0 <= k < |tail| ==> tail[k] == ss[k + 1];
      }
      ScanRenderedSections(mid, tail);
      assert ScanLines(st, RenderSections(ss)) == ScanLines(mid, RenderSections(tail)) by {
        ScanSectionsCons(st, ss);
      }
      var end := ScanLines(mid, RenderSections(tail)).value;
      assert Closed(end) == Closed(st) + ss by {
        assert Closed(mid) == Closed(st) + [ss[0]];
        ConsRegroup(Closed(st), ss[0], tail);
        assert [ss[0]] + tail == ss;
      }
    }
  }

  lemma MainIsPlain()
    ensures IsPlainText("MAIN") && IsMainTitle("MAIN")
  {
  }

  /** Reading a rendered file gives back its sections. */
  lemma SplitRenderSlang(f: SlangFile)
    requires forall k :: 0 <= k < |f.sugars| ==> IsPlainSection(f.sugars[k])
    requires forall k :: 0 <= k < |f.main| ==> IsPlainLine(f.main[k])
    ensures SplitSlang(RenderSlang(f)) == Success(f)
  {
    var main := Section("MAIN", f.main);
    ScanLinesAppend(Start, RenderSections(f.sugars), RenderSection(main));
    ScanRenderedSections(Start, f.sugars);
    var mid := ScanLines(Start, RenderSections(f.sugars)).value;
    MainIsPlain();
    ScanRenderedSection(mid, main);
    assert Closed(mid) == f.sugars;
    assert ScanLines(Start, RenderSlang(f)) == Success(Scan(f.sugars, "MAIN", f.main, true, true));
  }

  // ---------------------------------------------------------------------
  // Which files are accepted, and what MAIN holds

  predicate Readable(lines: seq<string>) {
    forall k :: 0 <= k < |lines| ==> Classify(lines[k]) != Unreadable
  }

  predicate IsMainLine(line: string) {
    Classify(line).Title? && IsMainTitle(Classify(line).title)
  }

  /** `lines[i]` opens `MAIN`: it is the first `MAIN` title, and no title
      of any kind follows it. */
  predicate MainAt(lines: seq<string>, i: nat) {
    i < |lines| && IsMainLine(lines[i]) &&
    (forall j :: 0 <= j < i ==> !IsMainLine(lines[j])) &&
    (forall j :: i < j < |lines| ==> !Classify(lines[j]).Title?)
  }

  function ContentOf(line: string): seq<string> {
    match Classify(line)
    case Content(c) => [c]
    case _ => []
  }

  /** The texts of the content lines, in order. */
  function Contents(lines: seq<string>): seq<string>
    decreases |lines|
  {
    if lines == [] then [] else ContentOf(lines[0]) + Contents(lines[1..])
  }

  /** A file is accepted exactly when every line is readable and one line
      opens `MAIN`; `MAIN` then holds the content lines after it. */
  lemma SplitSlangAccepts(lines: seq<string>)
    ensures SplitSlang(lines).Success? <==> Readable(lines) && exists i :: MainAt(lines, i)
    ensures forall i :: MainAt(lines, i) && SplitSlang(lines).Success? ==>
              SplitSlang(lines).value.main == Contents(lines[i + 1..])
  {
    if SplitSlang(lines).Success? {
      SplitSlangMain(lines);
      var k :| 0 <= k < |lines| && IsMainLine(lines[k]);
      var i := FirstMainLine(lines, k);
      SplitAtMain(lines, i);
      assert MainAt(lines, i);
    }
    forall i | MainAt(lines, i)
      ensures SplitSlang(lines).Success? <==> Readable(lines)
      ensures SplitSlang(lines).Success? ==> SplitSlang(lines).value.main == Contents(lines[i + 1..])
    {
      SplitAtMain(lines, i);
    }
  }

  lemma {:induction false} FirstMainLine(lines: seq<string>, k: nat) returns (i: nat)
    requires k < |lines| && IsMainLine(lines[k])
    ensures i <= k && IsMainLine(lines[i]) && forall j :: 0 <= j < i ==> !IsMainLine(lines[j])
    decreases k
  {
    if j :| 0 <= j < k && IsMainLine(lines[j]) {
      i := FirstMainLine(lines, j);
    } else {
      i := k;
    }
  }

  /** Cut at the first `MAIN` title: the file is accepted exactly when
      every line is readable and no title follows. */
  lemma SplitAtMain(lines: seq<string>, i: nat)
    requires i < |lines| && IsMainLine(lines[i])
    requires forall j :: 0 <= j < i ==> !IsMainLine(lines[j])
    ensures SplitSlang(lines).Success? <==>
            Readable(lines) && forall j :: i < j < |lines| ==> !Classify(lines[j]).Title?
    ensures SplitSlang(lines).Success? ==> SplitSlang(lines).value.main == Contents(lines[i + 1..])
  {
    var a, b := lines[..i], lines[i + 1..];
    assert lines == a + ([lines[i]] + b);
    CutAround(lines, i);
    ScanLinesAppend(Start, a, [lines[i]] + b);
    ScanBeforeMain(Start, a);
    if ScanLines(Start, a).Success? {
      var open := OpenMain(ScanLines(Start, a).value, lines[i], b);
      ScanInMain(open, b);
      if ScanLines(open, b).Success? {
        ScanMainContents(open, b);
      }
    }
  }

  /** The lines around a readable `lines[i]`, seen one side at a time. */
  lemma CutAround(lines: seq<string>, i: nat)
    requires i < |lines| && Classify(lines[i]) != Unreadable
    ensures var a, b := lines[..i], lines[i + 1..];
            (Readable(lines) <==> Readable(a) && Readable(b)) &&
            ((forall j :: i < j < |lines| ==> !Classify(lines[j]).Title?) <==> forall k :: 0 <= k < |b| ==> !Classify(b[k]).Title?) &&
            ((forall j :: 0 <= j < i ==> !IsMainLine(lines[j])) <==> forall k :: 0 <= k < |a| ==> !IsMainLine(a[k]))
  {
    var a, b := lines[..i], lines[i + 1..];
    assert forall k :: 0 <= k < |a| ==> a[k] == lines[k];
    assert forall k :: 0 <= k < |b| ==> b[k] == lines[i + 1 + k];
    if Readable(a) && Readable(b) {
      forall j | 0 <= j < |lines|
        ensures Classify(lines[j]) != Unreadable
      {
        if j > i {
          assert lines[j] == b[j - i - 1];
        }
      }
    }
    if forall k :: 0 <= k < |b| ==> !Classify(b[k]).Title? {
      forall j | i < j < |lines|
        ensures !Classify(lines[j]).Title?
      {
        assert lines[j] == b[j - i - 1];
      }
    }
  }

  /** Reading the `MAIN` title opens an empty `MAIN` section. */
  lemma OpenMain(mid: Scan, line: string, b: seq<string>) returns (open: Scan)
    requires !mid.isMain && IsMainLine(line)
    ensures ScanLines(mid, [line] + b) == ScanLines(open, b)
    ensures open.isMain && open.lines == []
  {
    StepEffect(mid, line);
    open := Step(mid, line).value;
    assert ([line] + b)[1..] == b;
    ScanLinesCons(mid, [line] + b, open);
  }

  /** Before any `MAIN` title the scan fails exactly on an unreadable line,
      and it does not enter `MAIN`. */
  lemma {:induction false} ScanBeforeMain(st: Scan, lines: seq<string>)
    requires !st.isMain
    requires forall k :: 0 <= k < |lines| ==> !IsMainLine(lines[k])
    ensures ScanLines(st, lines).Success? <==> Readable(lines)
    ensures ScanLines(st, lines).Success? ==> !ScanLines(st, lines).value.isMain
    decreases |lines|
  {
    if lines != [] {
      StepEffect(st, lines[0]);
      assert forall k :: 0 <= k < |lines[1..]| ==> lines[1..][k] == lines[k + 1];
      match Step(st, lines[0])
      case Success(next) => ScanBeforeMain(next, lines[1..]);
      case Failure(_) =>
    }
  }

  /** Inside `MAIN` a successful scan adds the content lines to it. */
  lemma {:induction false} ScanMainContents(st: Scan, lines: seq<string>)
    requires st.isMain && ScanLines(st, lines).Success?
    ensures ScanLines(st, lines).value.lines == st.lines + Contents(lines)
    decreases |lines|
  {
    if lines == [] {
      assert st.lines + [] == st.lines;
    } else {
      var next := StepInMain(st, lines[0]);
      var rest, c := lines[1..], ContentOf(lines[0]);
      ScanLinesCons(st, lines, next);
      ScanMainContents(next, rest);
      AppendAssoc(st.lines, c, Contents(rest));
    }
  }

  lemma StepInMain(st: Scan, line: string) returns (next: Scan)
    requires st.isMain && Step(st, line).Success?
    ensures Step(st, line) == Success(next)
    ensures next.isMain && next.lines == st.lines + ContentOf(line)
  {
    StepEffect(st, line);
    next := Step(st, line).value;
  }
}
