/** Program listings: `Program.__str__` writes one instruction per line,
    with the sentences lined up in one column after the label prefixes;
    the interpreter reads such a file back line by line and compiles it. */
module Listing {
  import opened Wrappers
  import opened Syntax
  import opened Text
  import opened Assembler
  import opened Macro

  /** The width of the widest label prefix, 0 for the empty program. The
      prefix is what `(\[.*])?\s*` matches at the start of a printed
      instruction. */
  function PrefixWidth(p: Program): (w: nat)
    ensures forall k :: 0 <= k < |p| ==> |LinePrefix(p[k].lineLabel)| <= w
    ensures p == [] ==> w == 0
    ensures p != [] ==> exists k :: 0 <= k < |p| && |LinePrefix(p[k].lineLabel)| == w
  {
    if p == [] then 0
    else
      var rest := PrefixWidth(p[1..]);
      var first := |LinePrefix(p[0].lineLabel)|;
      assert forall k :: 1 <= k < |p| ==> p[k] == p[1..][k - 1];
      if first > rest then first else rest
  }

  function Spaces(n: nat): (r: string)
    ensures |r| == n && AllSpaces(r)
    ensures forall k :: 0 <= k < n ==> r[k] == ' '
  {
    if n == 0 then [] else [' '] + Spaces(n - 1)
  }

  /** One instruction, its sentence pushed to column `w`. */
  function ShowLine(i: Instruction, w: nat): (r: string)
    requires |LinePrefix(i.lineLabel)| <= w
  {
    LinePrefix(i.lineLabel) + Spaces(w - |LinePrefix(i.lineLabel)|) + ShowSentence(i.sentence)
  }

  function ShowLines(p: Program, w: nat): (r: seq<string>)
    requires forall k :: 0 <= k < |p| ==> |LinePrefix(p[k].lineLabel)| <= w
    ensures |r| == |p|
    ensures forall k :: 0 <= k < |p| ==> r[k] == ShowLine(p[k], w)
  {
    seq(|p|, k requires 0 <= k < |p| => ShowLine(p[k], w))
  }

  /** `"\n".join(lines)`. */
  function JoinNewlines(lines: seq<string>): string {
    if |lines| == 0 then []
    else if |lines| == 1 then lines[0]
    else lines[0] + "\n" + JoinNewlines(lines[1..])
  }

  /** `str(program)`. */
  function ShowProgram(p: Program): string {
    JoinNewlines(ShowLines(p, PrefixWidth(p)))
  }

  /** `readlines()`: the text cut after every newline, which each line but
      possibly the last keeps. */
  function ReadLines(s: string): (r: seq<string>)
    decreases |s|
  {
    if s == [] then []
    else
      var n := LineLength(s);
      if n == |s| then [s] else [s[..n + 1]] + ReadLines(s[n + 1..])
  }

  /** The lines, written one after another. */
  function Concat(lines: seq<string>): string {
    if lines == [] then [] else lines[0] + Concat(lines[1..])
  }

  /** `lines` cuts `s` after each newline: put together they give `s`, none
      is empty, each holds a newline only as its last character, and every
      one but the last has it. */
  predicate CutAtNewlines(s: string, lines: seq<string>) {
    Concat(lines) == s &&
    (forall k :: 0 <= k < |lines| ==> lines[k] != [] && NoNewline(lines[k][..|lines[k]| - 1])) &&
    (forall k :: 0 <= k < |lines| - 1 ==> lines[k][|lines[k]| - 1] == '\n')
  }

  /** `readlines` returns exactly the cut of the text after each newline. */
  lemma ReadLinesExact(s: string, lines: seq<string>)
    ensures ReadLines(s) == lines <==> CutAtNewlines(s, lines)
  {
    ReadLinesCut(s);
    if CutAtNewlines(s, lines) {
      CutUnique(s, lines);
    }
  }

  lemma {:induction false} ReadLinesCut(s: string)
    ensures CutAtNewlines(s, ReadLines(s))
    decreases |s|
  {
    if s != [] {
      var n := LineLength(s);
      if n == |s| {
        assert Concat([s]) == s + [];
        assert s[..|s| - 1] == s[..n - 1];
      } else {
        ReadLinesCut(s[n + 1..]);
        assert NoNewline(s[..n]) by {
          forall j | 0 <= j < n
            ensures s[..n][j] != '\n'
          {
            assert s[..n][j] == s[j];
          }
        }
        CutStep(s, n, ReadLines(s[n + 1..]));
      }
    }
  }

  /** A first line ended by the first newline, then a cut of the rest. */
  lemma CutStep(s: string, n: nat, rest: seq<string>)
    requires n < |s| && s[n] == '\n' && NoNewline(s[..n])
    requires CutAtNewlines(s[n + 1..], rest)
    ensures CutAtNewlines(s, [s[..n + 1]] + rest)
  {
    var first := s[..n + 1];
    ConcatCons(first, rest);
    assert s == first + s[n + 1..];
    assert first[..|first| - 1] == s[..n];
    LinesShape(first, rest);
  }

  lemma ConcatCons(first: string, rest: seq<string>)
    ensures Concat([first] + rest) == first + Concat(rest)
  {
    assert ([first] + rest)[1..] == rest;
  }

  /** The line conditions of a cut, for one more line in front. */
  lemma LinesShape(first: string, rest: seq<string>)
    requires first != [] && NoNewline(first[..|first| - 1]) && first[|first| - 1] == '\n'
    requires forall k :: 0 <= k < |rest| ==> rest[k] != [] && NoNewline(rest[k][..|rest[k]| - 1])
    requires forall k :: 0 <= k < |rest| - 1 ==> rest[k][|rest[k]| - 1] == '\n'
    ensures var r := [first] + rest;
            (forall k :: 0 <= k < |r| ==> r[k] != [] && NoNewline(r[k][..|r[k]| - 1])) &&
            (forall k :: 0 <= k < |r| - 1 ==> r[k][|r[k]| - 1] == '\n')
  {
    var r := [first] + rest;
    forall k | 0 <= k < |r|
      ensures r[k] != [] && NoNewline(r[k][..|r[k]| - 1])
    {
      if k > 0 {
        assert r[k] == rest[k - 1];
      }
    }
    forall k | 0 <= k < |r| - 1
      ensures r[k][|r[k]| - 1] == '\n'
    {
      if k > 0 {
        assert r[k] == rest[k - 1];
      }
    }
  }

  lemma {:induction false} CutUnique(s: string, lines: seq<string>)
    requires CutAtNewlines(s, lines)
    ensures lines == ReadLines(s)
    decreases |lines|
  {
    if lines != [] {
      var l := lines[0];
      var rest := lines[1..];
      assert s == l + Concat(rest);
      var body := l[..|l| - 1];
      if |lines| == 1 {
        assert Concat(rest) == [];
        assert s == l;
        if l[|l| - 1] == '\n' {
          LineLengthOf(body, "\n");
          assert l == body + "\n";
          assert s[..|l|] == l && s[|l|..] == [];
        } else {
          assert NoNewline(l);
          LineLengthOf(l, []);
          assert l + [] == l;
        }
      } else {
        assert l == body + "\n";
        assert s == body + ("\n" + Concat(rest));
        LineLengthOf(body, "\n" + Concat(rest));
        assert s[..|l|] == l && s[|l|..] == Concat(rest);
        forall k | 0 <= k < |rest|
          ensures rest[k] != [] && NoNewline(rest[k][..|rest[k]| - 1])
        {
          assert rest[k] == lines[k + 1];
        }
        forall k | 0 <= k < |rest| - 1
          ensures rest[k][|rest[k]| - 1] == '\n'
        {
          assert rest[k] == lines[k + 1];
        }
        CutUnique(Concat(rest), rest);
        assert lines == [l] + rest;
      }
    }
  }

  /** Each line but the last ended by a newline. */
  function Terminated(lines: seq<string>): (r: seq<string>)
    ensures |r| == |lines|
  {
    if |lines| <= 1 then lines else [lines[0] + "\n"] + Terminated(lines[1..])
  }

  /** Reading back non-empty lines joined by newlines gives each line with
      its newline. */
  lemma {:induction false} ReadJoined(lines: seq<string>)
    requires forall k :: 0 <= k < |lines| ==> lines[k] != [] && NoNewline(lines[k])
    ensures ReadLines(JoinNewlines(lines)) == Terminated(lines)
    decreases |lines|
  {
    if |lines| == 1 {
      LineLengthOf(lines[0], []);
      assert lines[0] + [] == lines[0];
    } else if |lines| > 1 {
      var rest := JoinNewlines(lines[1..]);
      var s := lines[0] + ("\n" + rest);
      assert JoinNewlines(lines) == s;
      LineLengthOf(lines[0], "\n" + rest);
      var n := |lines[0]|;
      assert s[..n + 1] == lines[0] + "\n";
      assert s[n + 1..] == rest;
      assert rest != [] by {
        assert |rest| >= |lines[1]| by {
          JoinNewlinesLength(lines[1..]);
        }
      }
      ReadJoined(lines[1..]);
    }
  }

  lemma {:induction false} JoinNewlinesLength(lines: seq<string>)
    requires |lines| > 0
    ensures |JoinNewlines(lines)| >= |lines[0]|
    decreases |lines|
  {
  }

  /** `str(program)` read back by `readlines` has one line per
      instruction. Each line holds the label prefix, then blanks up to the
      widest prefix, so every sentence starts in the same column. The
      sentence follows, with a newline on every line but the last. */
  lemma ShowProgramColumns(p: Program)
    requires ValidProgram(p)
    ensures var lines := ReadLines(ShowProgram(p));
            var w := PrefixWidth(p);
            |lines| == |p| &&
            forall k :: 0 <= k < |p| ==>
              var pre := LinePrefix(p[k].lineLabel);
              |pre| <= w <= |lines[k]| && lines[k][..|pre|] == pre && AllSpaces(lines[k][|pre|..w]) &&
              lines[k][w..] == ShowSentence(p[k].sentence) + (if k < |p| - 1 then "\n" else "")
  {
    var w := PrefixWidth(p);
    var shown := ShowLines(p, w);
    forall k | 0 <= k < |shown|
      ensures shown[k] != [] && NoNewline(shown[k])
    {
      ShowLineShape(p[k], w);
    }
    ReadJoined(shown);
    forall k | 0 <= k < |p|
      ensures var pre := LinePrefix(p[k].lineLabel);
              var line := Terminated(shown)[k];
              |pre| <= w <= |line| && line[..|pre|] == pre && AllSpaces(line[|pre|..w]) &&
              line[w..] == ShowSentence(p[k].sentence) + (if k < |p| - 1 then "\n" else "")
    {
      TerminatedAt(shown, k);
      LineColumns(p[k], w, if k < |p| - 1 then "\n" else "");
    }
  }

  lemma {:induction false} TerminatedAt(lines: seq<string>, k: nat)
    requires k < |lines|
    ensures Terminated(lines)[k] == lines[k] + (if k < |lines| - 1 then "\n" else "")
    decreases k
  {
    if |lines| == 1 {
      assert lines[0] + "" == lines[0];
    } else if k > 0 {
      TerminatedAt(lines[1..], k - 1);
    }
  }

  /** One printed line and what follows it, cut at its columns. */
  lemma LineColumns(i: Instruction, w: nat, tail: string)
    requires |LinePrefix(i.lineLabel)| <= w
    ensures var pre := LinePrefix(i.lineLabel);
            var line := ShowLine(i, w) + tail;
            w <= |line| && line[..|pre|] == pre && AllSpaces(line[|pre|..w]) &&
            line[w..] == ShowSentence(i.sentence) + tail
  {
    var pre := LinePrefix(i.lineLabel);
    CutColumns(pre, Spaces(w - |pre|), ShowSentence(i.sentence), tail, ShowLine(i, w) + tail);
  }

  lemma CutColumns(pre: string, pad: string, body: string, tail: string, line: string)
    requires AllSpaces(pad) && line == pre + pad + body + tail
    ensures var w := |pre| + |pad|;
            w <= |line| && line[..|pre|] == pre && AllSpaces(line[|pre|..w]) && line[w..] == body + tail
  {
    assert line == pre + (pad + (body + tail));
    assert line[|pre|..|pre| + |pad|] == pad;
  }

  /** A printed instruction is non-empty and on one line. */
  lemma ShowLineShape(i: Instruction, w: nat)
    requires ValidInstruction(i)
    requires |LinePrefix(i.lineLabel)| <= w
    ensures ShowLine(i, w) != [] && NoNewline(ShowLine(i, w))
  {
    ShowSentenceOneLine(i.sentence);
    ShowPrefixOneLine(i.lineLabel);
    var pad := Spaces(w - |LinePrefix(i.lineLabel)|);
    assert NoNewline(pad);
    NoNewlineJoin(LinePrefix(i.lineLabel), pad);
    NoNewlineJoin(LinePrefix(i.lineLabel) + pad, ShowSentence(i.sentence));
  }

  lemma ShowPrefixOneLine(l: Option<Label>)
    requires l.Some? ==> ValidLabel(l.value)
    ensures NoNewline(LinePrefix(l))
  {
    if l.Some? {
      ShowLabelOneLine(l.value);
      BracketedOneLine(ShowLabel(l.value));
    }
  }

  lemma BracketedOneLine(t: string)
    requires NoNewline(t)
    ensures NoNewline("[" + t + "] ")
  {
    NoNewlineJoin("[", t);
    NoNewlineJoin("[" + t, "] ");
  }

  /** The first line and the rest read separately. */
  lemma ParsedCons(d: Dialect, lines: seq<string>, i: Instruction, q: Program)
    requires lines != [] && ParseInstruction(d, lines[0]) == Success(i)
    requires AllParse(d, lines[1..]) && ParsedLines(d, lines[1..]) == q
    ensures AllParse(d, lines) && ParsedLines(d, lines) == [i] + q
  {
  }

  /** The first printed line, with its newline when more follow. */
  lemma ParseFirstShown(d: Dialect, p: Program, w: nat)
    requires ValidProgram(p) && p != []
    requires forall k :: 0 <= k < |p| ==> |LinePrefix(p[k].lineLabel)| <= w
    ensures ParseInstruction(d, Terminated(ShowLines(p, w))[0]) == Success(p[0])
  {
    var pad := Spaces(w - |LinePrefix(p[0].lineLabel)|);
    var tail: string := if |p| == 1 then [] else "\n";
    ParseInstructionShowPadded(d, p[0], pad, tail);
    assert Terminated(ShowLines(p, w))[0] == LinePrefix(p[0].lineLabel) + pad + ShowSentence(p[0].sentence) + tail;
  }

  lemma ShowLinesTail(p: Program, w: nat)
    requires p != []
    requires forall k :: 0 <= k < |p| ==> |LinePrefix(p[k].lineLabel)| <= w
    ensures ShowLines(p, w)[1..] == ShowLines(p[1..], w)
  {
  }

  lemma TerminatedTail(lines: seq<string>)
    requires lines != []
    ensures Terminated(lines)[1..] == Terminated(lines[1..])
  {
    if |lines| == 1 {
      assert Terminated(lines[1..]) == [];
    }
  }

  lemma ProgramTail(p: Program, w: nat)
    requires ValidProgram(p) && p != []
    requires forall k :: 0 <= k < |p| ==> |LinePrefix(p[k].lineLabel)| <= w
    ensures ValidProgram(p[1..]) && [p[0]] + p[1..] == p
    ensures forall k :: 0 <= k < |p[1..]| ==> |LinePrefix(p[1..][k].lineLabel)| <= w
  {
    var q := p[1..];
    forall k | 0 <= k < |q|
      ensures ValidInstruction(q[k]) && |LinePrefix(q[k].lineLabel)| <= w
    {
      assert q[k] == p[k + 1];
    }
  }

  /** Every printed line reads back as its instruction. */
  lemma {:induction false} ParseShownLines(d: Dialect, p: Program, w: nat)
    requires ValidProgram(p)
    requires forall k :: 0 <= k < |p| ==> |LinePrefix(p[k].lineLabel)| <= w
    ensures AllParse(d, Terminated(ShowLines(p, w)))
    ensures ParsedLines(d, Terminated(ShowLines(p, w))) == p
    decreases |p|
  {
    if p != [] {
      var lines := Terminated(ShowLines(p, w));
      ParseFirstShown(d, p, w);
      ShowLinesTail(p, w);
      TerminatedTail(ShowLines(p, w));
      ProgramTail(p, w);
      ParseShownLines(d, p[1..], w);
      ParsedCons(d, lines, p[0], p[1..]);
    }
  }

  /** A valid program that keeps the `Y <- Y` convention, printed and read
      back by `readlines`, compiles to itself. */
  lemma ListingRoundTrip(d: Dialect, e: Expansion, p: Program)
    requires ValidProgram(p) && RespectsConvention(p)
    ensures CompileProgram(d, e, [], ReadLines(ShowProgram(p))) == Success(p)
  {
    var w := PrefixWidth(p);
    var lines := ShowLines(p, w);
    forall k | 0 <= k < |lines|
      ensures lines[k] != [] && NoNewline(lines[k])
    {
      ShowLineShape(p[k], w);
    }
    ReadJoined(lines);
    ParseShownLines(d, p, w);
    CompileWithoutSugars(d, e, Terminated(lines));
  }

}
