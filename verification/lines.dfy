/** Line-level text handling shared by the compilers: Python's
    `str.splitlines`, `str.strip` and `str.split("#")[0]`. */
module Lines {
  import opened Text

  // ---------------------------------------------------------------------
  // `str.splitlines`

  /** The characters `str.splitlines` breaks at; `\r\n` counts as one
      break. */
  predicate IsLineBreak(c: char) {
    c == '\n' || c == '\r' || c == '\U{0B}' || c == '\U{0C}' ||
    ('\U{1C}' <= c <= '\U{1E}') || c == '\U{85}' || c == '\U{2028}' || c == '\U{2029}'
  }

  predicate NoLineBreak(s: string) {
    forall k :: 0 <= k < |s| ==> !IsLineBreak(s[k])
  }

  /** The number of characters before the first line break. */
  function BreakAt(s: string): (n: nat)
    ensures n <= |s|
    ensures NoLineBreak(s[..n])
    ensures n < |s| ==> IsLineBreak(s[n])
  {
    if |s| == 0 || IsLineBreak(s[0]) then 0
    else
      var n := 1 + BreakAt(s[1..]);
      assert s[..n] == [s[0]] + s[1..][..n - 1];
      n
  }

  /** The length of the break at the front of `s`: two for `\r\n`. */
  function BreakLength(s: string): (n: nat)
    requires |s| > 0 && IsLineBreak(s[0])
    ensures 1 <= n <= |s|
  {
    if s[0] == '\r' && |s| > 1 && s[1] == '\n' then 2 else 1
  }

  /** `str.splitlines()`: the lines without their breaks, and no empty line
      after a final break. */
  function SplitLines(s: string): (r: seq<string>)
    ensures forall k :: 0 <= k < |r| ==> NoLineBreak(r[k])
    ensures |r| <= |s|
    ensures s != [] ==> |r| > 0
    decreases |s|
  {
    if s == [] then []
    else
      var n := BreakAt(s);
      if n == |s| then [s]
      else [s[..n]] + SplitLines(s[n + BreakLength(s[n..])..])
  }

  /** A line break as `str.splitlines` reads it: `\r\n`, or one break
      character. */
  predicate IsBreakText(b: string) {
    b == "\r\n" || (|b| == 1 && IsLineBreak(b[0]))
  }

  /** `s` is `lines[0] + breaks[0] + lines[1] + breaks[1] + ...`: each line
      holds no break and is followed by one, except that the last line may
      end the text without a break when it is not empty; a lone `\r` is
      never followed by `\n`, which would make the two one break. */
  predicate Broken(s: string, lines: seq<string>, breaks: seq<string>)
    decreases |lines|
  {
    |breaks| == |lines| &&
    if lines == [] then s == []
    else
      NoLineBreak(lines[0]) &&
      if breaks[0] == [] then |lines| == 1 && lines[0] != [] && s == lines[0]
      else
        var n := |lines[0]| + |breaks[0]|;
        IsBreakText(breaks[0]) && n <= |s| && s[..n] == lines[0] + breaks[0] &&
        (breaks[0] == "\r" ==> !(n < |s| && s[n] == '\n')) &&
        Broken(s[n..], lines[1..], breaks[1..])
  }

  /** The pieces `str.splitlines` returns are exactly the lines of the text
      between its breaks, in order. */
  lemma SplitLinesExact(s: string, lines: seq<string>)
    ensures SplitLines(s) == lines <==> exists breaks :: Broken(s, lines, breaks)
  {
    if SplitLines(s) == lines {
      var breaks := SplitLinesBreaks(s);
      assert Broken(s, lines, breaks);
      assert exists b :: Broken(s, lines, b);
    }
    forall breaks | Broken(s, lines, breaks)
      ensures SplitLines(s) == lines
    {
      BrokenUnique(s, lines, breaks);
    }
    assert (exists b :: Broken(s, lines, b)) ==> SplitLines(s) == lines;
  }

  /** The breaks `SplitLines` drops. */
  lemma {:induction false} SplitLinesBreaks(s: string) returns (breaks: seq<string>)
    ensures Broken(s, SplitLines(s), breaks)
    decreases |s|
  {
    if s == [] {
      breaks := [];
    } else {
      var n := BreakAt(s);
      if n == |s| {
        breaks := [[]];
        assert s[..n] == s;
      } else {
        var m := BreakLength(s[n..]);
        var rest := SplitLinesBreaks(s[n + m..]);
        breaks := [s[n..n + m]] + rest;
        FirstBreak(s, n, m, rest);
      }
    }
  }

  /** One step of `SplitLinesBreaks`: the first line, its break, and the
      breaks of the rest. */
  lemma FirstBreak(s: string, n: nat, m: nat, rest: seq<string>)
    requires s != [] && n == BreakAt(s) && n < |s| && m == BreakLength(s[n..])
    requires Broken(s[n + m..], SplitLines(s[n + m..]), rest)
    ensures Broken(s, SplitLines(s), [s[n..n + m]] + rest)
  {
    SplitLinesStep(s, n, m);
    BreakFacts(s, n, m);
    BrokenCons(s, s[..n], s[n..n + m], SplitLines(s[n + m..]), rest);
  }

  lemma SplitLinesStep(s: string, n: nat, m: nat)
    requires s != [] && n == BreakAt(s) && n < |s| && m == BreakLength(s[n..])
    ensures SplitLines(s) == [s[..n]] + SplitLines(s[n + m..])
  {
  }

  /** The first line and the break after it, as `Broken` reads them. */
  lemma BreakFacts(s: string, n: nat, m: nat)
    requires n == BreakAt(s) && n < |s| && m == BreakLength(s[n..])
    ensures var b := s[n..n + m];
            NoLineBreak(s[..n]) && IsBreakText(b) && |s[..n]| + |b| == n + m && s[..n + m] == s[..n] + b &&
            (b == "\r" ==> !(n + m < |s| && s[n + m] == '\n'))
  {
    assert s[n..][0] == s[n];
    if n + 1 < |s| {
      assert s[n..][1] == s[n + 1];
    }
  }

  /** A line and its break in front of broken text. */
  lemma BrokenCons(s: string, l: string, b: string, lines: seq<string>, breaks: seq<string>)
    requires NoLineBreak(l) && IsBreakText(b)
    requires |l| + |b| <= |s| && s[..|l| + |b|] == l + b
    requires b == "\r" ==> !(|l| + |b| < |s| && s[|l| + |b|] == '\n')
    requires Broken(s[|l| + |b|..], lines, breaks)
    ensures Broken(s, [l] + lines, [b] + breaks)
  {
    var ls, bs := [l] + lines, [b] + breaks;
    assert ls[0] == l && bs[0] == b && b != [];
    assert ls[1..] == lines && bs[1..] == breaks;
    assert |bs| == |ls|;
  }

  /** Text broken into lines in this way is split into exactly those lines. */
  lemma {:induction false} BrokenUnique(s: string, lines: seq<string>, breaks: seq<string>)
    requires Broken(s, lines, breaks)
    ensures SplitLines(s) == lines
    decreases |lines|
  {
    if lines != [] {
      if breaks[0] == [] {
        assert s[..|lines[0]|] == s;
      } else {
        var n := |lines[0]| + |breaks[0]|;
        SplitAtBreak(s, lines, breaks);
        BrokenUnique(s[n..], lines[1..], breaks[1..]);
        assert lines == [lines[0]] + lines[1..];
      }
    }
  }

  /** The first line and break of broken text are the first line
      `SplitLines` returns, and the rest is split after them. */
  lemma SplitAtBreak(s: string, lines: seq<string>, breaks: seq<string>)
    requires Broken(s, lines, breaks) && lines != [] && breaks[0] != []
    ensures SplitLines(s) == [lines[0]] + SplitLines(s[|lines[0]| + |breaks[0]|..])
  {
    var l, b := lines[0], breaks[0];
    var n := |l| + |b|;
    assert s == l + (b + s[n..]) by {
      assert s == s[..n] + s[n..];
    }
    BreakAtOf(l, b + s[n..]);
    assert s[|l|..] == b + s[n..];
    assert BreakLength(s[|l|..]) == |b| by {
      if b == "\r" && n < |s| {
        assert s[|l|..][1] == s[n];
      }
    }
    assert s[..|l|] == l;
  }

  /** Lines written one after the other, each ended by `\n`. */
  function JoinLines(lines: seq<string>): (r: string)
    ensures |r| >= |lines|
  {
    if lines == [] then [] else lines[0] + "\n" + JoinLines(lines[1..])
  }

  lemma {:induction false} BreakAtOf(a: string, b: string)
    requires NoLineBreak(a)
    requires |b| > 0 && IsLineBreak(b[0])
    ensures BreakAt(a + b) == |a|
  {
    var s := a + b;
    var n := BreakAt(s);
    assert IsLineBreak(s[|a|]);
    assert forall k :: 0 <= k < |a| ==> s[k] == a[k];
  }

  /** Splitting lines that were joined with `\n` gives them back. */
  lemma {:induction false} SplitJoinLines(lines: seq<string>)
    requires forall k :: 0 <= k < |lines| ==> NoLineBreak(lines[k])
    ensures SplitLines(JoinLines(lines)) == lines
    decreases |lines|
  {
    if lines != [] {
      var s := JoinLines(lines);
      var rest := JoinLines(lines[1..]);
      assert s == lines[0] + ("\n" + rest);
      BreakAtOf(lines[0], "\n" + rest);
      var n := |lines[0]|;
      assert s[..n] == lines[0];
      assert s[n..] == "\n" + rest;
      assert BreakLength(s[n..]) == 1 by {
        assert s[n..][0] == '\n';
        if |s[n..]| > 1 && s[n..][1] == '\n' {
          assert s[n..][0] != '\r';
        }
      }
      assert s[n + 1..] == rest;
      SplitJoinLines(lines[1..]);
    }
  }

  /** Text whose only breaks are `\n` and which ends with one, or is empty,
      is the join of its lines. */
  lemma {:induction false} JoinSplitLines(s: string)
    requires forall k :: 0 <= k < |s| ==> IsLineBreak(s[k]) ==> s[k] == '\n'
    requires s == [] || s[|s| - 1] == '\n'
    ensures JoinLines(SplitLines(s)) == s
    decreases |s|
  {
    if s != [] {
      var n := BreakAt(s);
      assert n < |s|;
      assert s[n] == '\n';
      assert BreakLength(s[n..]) == 1;
      var rest := s[n + 1..];
      assert s == s[..n] + "\n" + rest;
      JoinSplitLines(rest);
    }
  }

  // ---------------------------------------------------------------------
  // `str.strip` and comments

  /** The text without its trailing whitespace. */
  function TrimEnd(s: string): (r: string)
    ensures |r| <= |s| && r == s[..|r|]
    ensures r == [] || !IsSpace(r[|r| - 1])
    ensures AllSpaces(s[|r|..])
  {
    if |s| > 0 && IsSpace(s[|s| - 1]) then
      var r := TrimEnd(s[..|s| - 1]);
      assert s[|r|..] == s[..|s| - 1][|r|..] + [s[|s| - 1]];
      r
    else s
  }

  /** `str.strip()`, which removes the same whitespace `\s` matches. */
  function Strip(s: string): (r: string)
    ensures r == [] || (!IsSpace(r[0]) && !IsSpace(r[|r| - 1]))
  {
    TrimEnd(TrimStart(s))
  }

  /** The text is whitespace, the stripped text, and whitespace again; as
      the stripped text neither starts nor ends with whitespace, this is
      the only such split. */
  lemma StripParts(s: string)
    ensures var r := Strip(s);
            exists i :: 0 <= i <= |s| - |r| && s[i..i + |r|] == r && AllSpaces(s[..i]) && AllSpaces(s[i + |r|..])
  {
    var t := TrimStart(s);
    var r := TrimEnd(t);
    var i := |s| - |t|;
    TrimStartSplit(s);
    assert s[i..i + |r|] == r;
    assert s[i + |r|..] == t[|r|..];
  }

  predicate IsStripped(s: string) {
    s == [] || (!IsSpace(s[0]) && !IsSpace(s[|s| - 1]))
  }

  lemma StripStripped(s: string)
    requires IsStripped(s)
    ensures Strip(s) == s
  {
    if s != [] {
      assert TrimStart(s) == s;
    }
  }

  /** `s.split("#")[0]`: the text before the first `#`. */
  function BeforeHash(s: string): (r: string)
    ensures |r| <= |s| && r == s[..|r|]
    ensures forall k :: 0 <= k < |r| ==> r[k] != '#'
    ensures |r| < |s| ==> s[|r|] == '#'
  {
    if |s| == 0 || s[0] == '#' then []
    else
      var r := [s[0]] + BeforeHash(s[1..]);
      assert r == s[..|r|];
      r
  }

  lemma {:induction false} BeforeHashNone(s: string)
    requires forall k :: 0 <= k < |s| ==> s[k] != '#'
    ensures BeforeHash(s) == s
    decreases |s|
  {
    if |s| > 0 {
      assert forall k :: 0 <= k < |s[1..]| ==> s[1..][k] == s[k + 1];
      BeforeHashNone(s[1..]);
      assert s == [s[0]] + s[1..];
    }
  }
}
