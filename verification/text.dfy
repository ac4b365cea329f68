/** The concrete syntax of S instructions: a scanner for the line grammar of
    `Variable.compile`, `Label.compile`, `Sentence.compile` and
    `Instruction.compile`, the `__str__` printers, and the proof that
    parsing a printed instruction gives the instruction back.

    Each regular expression of the source is replaced by a scanner over the
    text that is still to be read. The scanners are deterministic: in every
    pattern of this grammar a run of `\s` or of digits is followed by a
    character that cannot continue the run, so backtracking never finds a
    second way to match. */
module Text {
  import opened Wrappers
  import opened Syntax

  /** The three copies of the parser: the packaged
      `src/s_interpreter/compiler.py`, the older root `compiler.py` that
      `interpreter.py` loads, and the oldest root `s_compiler.py`. */
  datatype Dialect = Packaged | Legacy | Oldest

  // ---------------------------------------------------------------------
  // Characters

  /** Python's `\s` on text: exactly the characters `str.isspace` accepts. */
  predicate IsSpace(c: char) {
    c == ' ' || ('\t' <= c <= '\r') || ('\U{1C}' <= c <= '\U{1F}') ||
    c == '\U{85}' || c == '\U{A0}' || c == '\U{1680}' ||
    ('\U{2000}' <= c <= '\U{200A}') || c == '\U{2028}' || c == '\U{2029}' ||
    c == '\U{202F}' || c == '\U{205F}' || c == '\U{3000}'
  }

  predicate AllSpaces(s: string) {
    forall k :: 0 <= k < |s| ==> IsSpace(s[k])
  }

  predicate IsDigit(c: char) {
    '0' <= c <= '9'
  }

  predicate IsNonZeroDigit(c: char) {
    '1' <= c <= '9'
  }

  /** ASCII upper case, which is all the case-insensitive matching the
      grammar's ASCII letters need. */
  function Upper(c: char): char {
    if 'a' <= c <= 'z' then (c as int - 32) as char else c
  }

  // ---------------------------------------------------------------------
  // Scanning primitives; each returns the text that remains.

  /** `\s*`: the text after its leading whitespace. */
  function TrimStart(s: string): (r: string)
    ensures |r| <= |s|
    ensures r == [] || !IsSpace(r[0])
  {
    if |s| > 0 && IsSpace(s[0]) then TrimStart(s[1..]) else s
  }

  /** What `TrimStart` drops is whitespace and what it keeps is the rest of
      the text; with `TrimStartOf` this fixes the result for every text. */
  lemma {:induction false} TrimStartSplit(s: string)
    ensures var r := TrimStart(s); r == s[|s| - |r|..] && AllSpaces(s[..|s| - |r|])
    decreases |s|
  {
    if |s| > 0 && IsSpace(s[0]) {
      var r := TrimStart(s[1..]);
      TrimStartSplit(s[1..]);
      assert s[..|s| - |r|] == [s[0]] + s[1..][..|s| - 1 - |r|];
    }
  }

  /** Whitespace followed by text that does not start with whitespace is
      skipped exactly. */
  lemma {:induction false} TrimStartOf(w: string, r: string)
    requires AllSpaces(w)
    requires r == [] || !IsSpace(r[0])
    ensures TrimStart(w + r) == r
    decreases |w|
  {
    if |w| == 0 {
      assert w + r == r;
    } else {
      assert (w + r)[1..] == w[1..] + r;
      TrimStartOf(w[1..], r);
    }
  }

  /** A word of the grammar (`IF`, `GOTO`), matched ignoring ASCII case. */
  function ExpectWord(s: string, w: string): (r: Option<string>)
    ensures r.Some? ==> |w| <= |s| && r.value == s[|w|..]
  {
    if |w| <= |s| && forall k :: 0 <= k < |w| ==> Upper(s[k]) == w[k] then Some(s[|w|..])
    else None
  }

  function ExpectChar(s: string, c: char): (r: Option<string>)
    ensures r.Some? <==> |s| > 0 && s[0] == c
    ensures r.Some? ==> r.value == s[1..]
  {
    if |s| > 0 && s[0] == c then Some(s[1..]) else None
  }

  /** `\s+`: at least one whitespace character, then all that follow. */
  function ExpectSpaces(s: string): (r: Option<string>)
    ensures r.Some? <==> |s| > 0 && IsSpace(s[0])
  {
    if |s| > 0 && IsSpace(s[0]) then Some(TrimStart(s)) else None
  }

  /** The number of characters before the first newline, which is as far
      as the pattern `.*` reaches. */
  function LineLength(s: string): (n: nat)
    ensures n <= |s|
    ensures forall k :: 0 <= k < n ==> s[k] != '\n'
    ensures n < |s| ==> s[n] == '\n'
  {
    if |s| == 0 || s[0] == '\n' then 0 else 1 + LineLength(s[1..])
  }

  lemma {:induction false} LineLengthOf(a: string, b: string)
    requires forall k :: 0 <= k < |a| ==> a[k] != '\n'
    requires b == [] || b[0] == '\n'
    ensures LineLength(a + b) == |a|
    decreases |a|
  {
    if |a| > 0 {
      assert (a + b)[1..] == a[1..] + b;
      LineLengthOf(a[1..], b);
    } else {
      assert a + b == b;
    }
  }

  // ---------------------------------------------------------------------
  // Indices: `([1-9][0-9]*)?`, read with Python's `int`.

  /** The length of the run of decimal digits `s` starts with. */
  function DigitRun(s: string): (n: nat)
    ensures n <= |s|
    ensures forall k :: 0 <= k < n ==> IsDigit(s[k])
    ensures n < |s| ==> !IsDigit(s[n])
  {
    if |s| > 0 && IsDigit(s[0]) then 1 + DigitRun(s[1..]) else 0
  }

  lemma {:induction false} DigitRunOf(d: string, r: string)
    requires forall k :: 0 <= k < |d| ==> IsDigit(d[k])
    requires r == [] || !IsDigit(r[0])
    ensures DigitRun(d + r) == |d|
    decreases |d|
  {
    if |d| > 0 {
      assert (d + r)[1..] == d[1..] + r;
      DigitRunOf(d[1..], r);
    } else {
      assert d + r == r;
    }
  }

  /** The length of the optional index the text starts with: a non-zero
      digit and the digits after it, or nothing. */
  function IndexLength(s: string): (n: nat)
    ensures n <= |s|
  {
    if |s| > 0 && IsNonZeroDigit(s[0]) then 1 + DigitRun(s[1..]) else 0
  }

  /** The texts the optional index group can capture. */
  predicate IsIndexText(d: string) {
    d == [] || (IsNonZeroDigit(d[0]) && forall k :: 1 <= k < |d| ==> IsDigit(d[k]))
  }

  function DigitValue(c: char): int {
    c as int - '0' as int
  }

  /** The decimal value of a digit string, as `int(...)` reads it. */
  function DigitsValue(d: string): int {
    if |d| == 0 then 0 else DigitsValue(d[..|d| - 1]) * 10 + DigitValue(d[|d| - 1])
  }

  /** The index an entity gets: the captured digits, or 1 without any. */
  function IndexOf(d: string): int {
    if d == [] then 1 else DigitsValue(d)
  }

  lemma {:induction false} DigitsValueBounds(d: string)
    requires forall k :: 0 <= k < |d| ==> IsDigit(d[k])
    ensures DigitsValue(d) >= 0
    ensures |d| > 0 && IsNonZeroDigit(d[0]) ==> DigitsValue(d) >= 1
    decreases |d|
  {
    if |d| > 1 {
      DigitsValueBounds(d[..|d| - 1]);
    }
  }

  /** A captured index is at least 1. */
  lemma IndexOfPositive(d: string)
    requires IsIndexText(d)
    ensures IndexOf(d) >= 1
  {
    if d != [] {
      DigitsValueBounds(d);
    }
  }

  // ---------------------------------------------------------------------
  // Printing numbers: Python's `str` on an `int`.

  function DigitChar(k: nat): (c: char)
    requires k < 10
    ensures IsDigit(c) && DigitValue(c) == k
  {
    ('0' as int + k) as char
  }

  /** The decimal digits of `n`, most significant first, without leading
      zeros. */
  function NatDigits(n: nat): (r: string)
    ensures |r| >= 1
    ensures forall k :: 0 <= k < |r| ==> IsDigit(r[k])
    ensures n >= 1 ==> IsNonZeroDigit(r[0])
  {
    (if n < 10 then [] else NatDigits(n / 10)) + [DigitChar(n % 10)]
  }

  /** Reading the printed digits gives the number back. */
  lemma {:induction false} DigitsValueNatDigits(n: nat)
    ensures DigitsValue(NatDigits(n)) == n
  {
    var r := NatDigits(n);
    var init := if n < 10 then [] else NatDigits(n / 10);
    var last := DigitChar(n % 10);
    assert r == init + [last];
    assert r[..|r| - 1] == init && r[|r| - 1] == last;
    var high := DigitsValue(init);
    var low := DigitValue(last);
    assert DigitsValue(r) == high * 10 + low;
    assert low == n % 10;
    if n >= 10 {
      DigitsValueNatDigits(n / 10);
      assert high == n / 10;
    } else {
      assert high == 0;
    }
    assert high * 10 + low == n;
  }

  function IntText(i: int): string {
    if i < 0 then "-" + NatDigits(-i) else NatDigits(i)
  }

  /** The index part of a printed name: nothing for index 1. */
  function IndexSuffix(i: int): string {
    if i == 1 then "" else IntText(i)
  }

  /** A printed index of a valid entity is captured and read back whole. */
  lemma IndexSuffixRoundTrip(i: int, r: string)
    requires i >= 1
    requires r == [] || !IsDigit(r[0])
    ensures IsIndexText(IndexSuffix(i))
    ensures IndexOf(IndexSuffix(i)) == i
    ensures IndexLength(IndexSuffix(i) + r) == |IndexSuffix(i)|
  {
    var d := IndexSuffix(i);
    if i != 1 {
      DigitsValueNatDigits(i);
      assert (d + r)[1..] == d[1..] + r;
      DigitRunOf(d[1..], r);
    } else {
      assert d + r == r;
    }
  }

  // ---------------------------------------------------------------------
  // Variables: `\s*[XYZ]([1-9][0-9]*)?\s*`, ignoring case.

  function VarNameOf(c: char): Option<VarName> {
    if c == 'X' || c == 'x' then Some(X)
    else if c == 'Y' || c == 'y' then Some(Y)
    else if c == 'Z' || c == 'z' then Some(Z)
    else None
  }

  function VarChar(n: VarName): char {
    match n
    case X => 'X'
    case Y => 'Y'
    case Z => 'Z'
  }

  predicate IsVariableToken(t: string) {
    |t| >= 1 && VarNameOf(t[0]).Some? && IsIndexText(t[1..])
  }

  /** Text that starts with a variable token does not start with a space. */
  lemma VariableTokenStart(s: string)
    requires VariableToken(s).Some?
    ensures |s| > 0 && !IsSpace(s[0])
  {
    assert VarNameOf(s[0]).Some?;
  }

  /** The variable token the text starts with, and the text after it. */
  function VariableToken(s: string): (r: Option<(string, string)>)
    ensures r.Some? ==> IsVariableToken(r.value.0) && s == r.value.0 + r.value.1
  {
    if |s| > 0 && VarNameOf(s[0]).Some? then
      var n := 1 + IndexLength(s[1..]);
      assert s[..n][1..] == s[1..][..n - 1];
      Some((s[..n], s[n..]))
    else None
  }

  /** `Variable.compile` on a matched token. The packaged and legacy copies
      upper-case the name first and refuse `Y` with an index other than 1;
      the oldest copy refuses an upper-case `Y` followed by any digits and
      upper-cases afterwards, so it accepts `y2`. */
  function VariableOfToken(d: Dialect, t: string): (r: Result<Variable>)
    requires IsVariableToken(t)
    ensures r.Success? ==> r.value.name == VarNameOf(t[0]).value && r.value.index == IndexOf(t[1..])
    ensures r.Success? && d != Oldest ==> ValidVariable(r.value)
  {
    IndexOfPositive(t[1..]);
    var v := Variable(VarNameOf(t[0]).value, IndexOf(t[1..]));
    if d == Oldest then
      if t[0] == 'Y' && |t| > 1 then Failure("Failed to compile variable") else Success(v)
    else if v.name == Y && v.index != 1 then Failure("Failed to compile variable")
    else Success(v)
  }

  /** `Variable.compile` on any text. Text outside the grammar is an error
      in the packaged copy; the two root copies fall off the end of the
      function and return `None`. */
  function ParseVariable(d: Dialect, text: string): (r: Result<Option<Variable>>)
    ensures d == Packaged && r.Success? ==> r.value.Some?
    ensures d != Packaged && r.Failure? ==> VariableToken(TrimStart(text)).Some?
    ensures r.Success? && r.value.Some? ==>
              var tok := VariableToken(TrimStart(text));
              tok.Some? && TrimStart(tok.value.1) == [] && VariableOfToken(d, tok.value.0) == Success(r.value.value)
  {
    match VariableToken(TrimStart(text))
    case Some((tok, rest)) =>
      if TrimStart(rest) == [] then
        var v :- VariableOfToken(d, tok);
        Success(Some(v))
      else NoVariable(d)
    case None => NoVariable(d)
  }

  function NoVariable(d: Dialect): Result<Option<Variable>> {
    if d == Packaged then Failure("Failed to compile variable") else Success(None)
  }

  /** The oldest copy checks for `Y` before upper-casing: `y2` is accepted
      as the output variable with index 2, which no S program may mention. */
  lemma OldestLowerCaseOutputAsWritten()
    ensures IsVariableToken("y2")
    ensures VariableOfToken(Oldest, "y2") == Success(Variable(Y, 2))
    ensures !ValidVariable(Variable(Y, 2))
  {
    assert "y2"[1..] == "2";
    assert DigitsValue("2") == 2 by {
      assert "2"[..0] == [];
    }
  }

  /** Upper-casing first, as the later copies do, refuses `y2`; in general
      they accept only valid variables (the contract of `VariableOfToken`). */
  lemma LowerCaseOutputCorrected(d: Dialect)
    requires d != Oldest
    ensures IsVariableToken("y2")
    ensures VariableOfToken(d, "y2").Failure?
  {
    OldestLowerCaseOutputAsWritten();
  }

  // ---------------------------------------------------------------------
  // Labels: `\s*[A-E]([1-9][0-9]*)?\s*`, ignoring case.

  function LabelNameOf(c: char): Option<LabelName> {
    if c == 'A' || c == 'a' then Some(A)
    else if c == 'B' || c == 'b' then Some(B)
    else if c == 'C' || c == 'c' then Some(C)
    else if c == 'D' || c == 'd' then Some(D)
    else if c == 'E' || c == 'e' then Some(E)
    else None
  }

  function LabelChar(n: LabelName): char {
    match n
    case A => 'A'
    case B => 'B'
    case C => 'C'
    case D => 'D'
    case E => 'E'
  }

  predicate IsLabelToken(t: string) {
    |t| >= 1 && LabelNameOf(t[0]).Some? && IsIndexText(t[1..])
  }

  function LabelToken(s: string): (r: Option<(string, string)>)
    ensures r.Some? ==> IsLabelToken(r.value.0) && s == r.value.0 + r.value.1
  {
    if |s| > 0 && LabelNameOf(s[0]).Some? then
      var n := 1 + IndexLength(s[1..]);
      assert s[..n][1..] == s[1..][..n - 1];
      Some((s[..n], s[n..]))
    else None
  }

  /** `Label.compile` on a matched token, which always succeeds. */
  function LabelOfToken(t: string): (l: Label)
    requires IsLabelToken(t)
    ensures ValidLabel(l)
    ensures l.name == LabelNameOf(t[0]).value && l.index == IndexOf(t[1..])
  {
    IndexOfPositive(t[1..]);
    Label(LabelNameOf(t[0]).value, IndexOf(t[1..]))
  }

  /** `Label.compile` on any text. */
  function ParseLabel(text: string): (r: Result<Label>)
    ensures r.Success? ==> ValidLabel(r.value)
    ensures r.Success? <==> LabelToken(TrimStart(text)).Some? && TrimStart(LabelToken(TrimStart(text)).value.1) == []
  {
    match LabelToken(TrimStart(text))
    case Some((tok, rest)) =>
      if TrimStart(rest) == [] then Success(LabelOfToken(tok)) else Failure("Failed to compile label")
    case None => Failure("Failed to compile label")
  }

  // ---------------------------------------------------------------------
  // Sentences

  /** The jump pattern `\s*IF\s+V\s*!\s*=\s*0\s+GOTO\s+L\s*`, ignoring
      case; the variable and label tokens it captures. */
  function JumpForm(s: string): (r: Option<(string, string)>)
    ensures r.Some? ==> IsVariableToken(r.value.0) && IsLabelToken(r.value.1)
  {
    var a :- ExpectWord(TrimStart(s), "IF");
    var b :- ExpectSpaces(a);
    var v :- VariableToken(b);
    var l :- JumpTail(v.1);
    Some((v.0, l))
  }

  /** `\s*!\s*=\s*0` and the rest of the jump pattern. */
  function JumpTail(s: string): (r: Option<string>)
    ensures r.Some? ==> IsLabelToken(r.value)
  {
    var c :- ExpectChar(TrimStart(s), '!');
    var e :- ExpectChar(TrimStart(c), '=');
    var f :- ExpectChar(TrimStart(e), '0');
    GotoTail(f)
  }

  /** `\s+GOTO\s+L\s*`, the end of the jump pattern; the label token. */
  function GotoTail(s: string): (r: Option<string>)
    ensures r.Some? ==> IsLabelToken(r.value)
  {
    var g :- ExpectSpaces(s);
    var h :- ExpectWord(g, "GOTO");
    var i :- ExpectSpaces(h);
    var l :- LabelToken(i);
    if TrimStart(l.1) == [] then Some(l.0) else None
  }

  /** The end of a set-operation, `\s*([+-]\s*1)?` and nothing after it;
      the operation it names. */
  function OpSuffix(s: string): Option<Op> {
    var t := TrimStart(s);
    if t == [] then Some(NoOp)
    else if t[0] == '+' || t[0] == '-' then
      if TrimStart(t[1..]) == "1" then Some(if t[0] == '+' then Increment else Decrement) else None
    else None
  }

  /** The set-operation pattern `\s*V\s*<\s*-\s*W\s*([+-]\s*1)?`; the two
      variable tokens and the operation. The packaged copy writes `W` as a
      back-reference to `V`; scanning `W` as a token and comparing it with
      `V` accepts the same texts, because whatever follows the
      back-reference must be whitespace, a sign or the end. */
  function SetOpForm(s: string): (r: Option<(string, string, Op)>)
    ensures r.Some? ==> IsVariableToken(r.value.0) && IsVariableToken(r.value.1)
  {
    var v :- VariableToken(TrimStart(s));
    var a :- ExpectChar(TrimStart(v.1), '<');
    var b :- ExpectChar(TrimStart(a), '-');
    var w :- VariableToken(TrimStart(b));
    var op :- OpSuffix(w.1);
    Some((v.0, w.0, op))
  }

  /** Equality of the two variable texts of a set-operation: ignoring case
      for the packaged back-reference, character for character in the
      oldest copy. */
  predicate SameText(d: Dialect, a: string, b: string) {
    if d == Packaged then |a| == |b| && forall k :: 0 <= k < |a| ==> Upper(a[k]) == Upper(b[k])
    else a == b
  }

  /** `Sentence.compile`: the jump pattern first, then the set-operation.
      The legacy copy parses both variables of a set-operation and compares
      the results, so `X1 <- X` is accepted there. */
  function ParseSentence(d: Dialect, s: string): (r: Result<Sentence>)
    ensures r.Success? && d != Oldest ==> ValidSentence(r.value)
    ensures JumpForm(s).Some? ==>
              (r.Success? <==> VariableOfToken(d, JumpForm(s).value.0).Success?) &&
              (r.Success? ==> r.value == Jump(VariableOfToken(d, JumpForm(s).value.0).value, LabelOfToken(JumpForm(s).value.1)))
    ensures JumpForm(s).None? && SetOpForm(s).None? ==> r.Failure?
    ensures JumpForm(s).None? && SetOpForm(s).Some? ==>
              var vt := SetOpForm(s).value.0;
              var wt := SetOpForm(s).value.1;
              (r.Success? <==>
                 VariableOfToken(d, vt).Success? &&
                 (if d == Legacy then VariableOfToken(d, wt) == VariableOfToken(d, vt) else SameText(d, vt, wt))) &&
              (r.Success? ==> r.value == SetOp(VariableOfToken(d, vt).value, SetOpForm(s).value.2))
  {
    match JumpForm(s)
    case Some((vt, lt)) =>
      var v :- VariableOfToken(d, vt);
      Success(Jump(v, LabelOfToken(lt)))
    case None =>
      match SetOpForm(s)
      case None => Failure("Failed to compile sentence")
      case Some((vt, wt, op)) =>
        if d == Legacy then
          var v :- VariableOfToken(d, vt);
          var w :- VariableOfToken(d, wt);
          if v != w then Failure("Failed to compile sentence (used two different variables)")
          else Success(SetOp(v, op))
        else if !SameText(d, vt, wt) then Failure("Failed to compile sentence")
        else
          var v :- VariableOfToken(d, vt);
          Success(SetOp(v, op))
  }

  // ---------------------------------------------------------------------
  // Instructions:`\s*(\[\s*L\s*])?\s*(?P<sentence>.*)\s*`

  /** The optional `[L]` in front of a sentence; the label and the text
      after the bracket. */
  function LabelPrefix(t: string): (r: Option<(Label, string)>)
    ensures r.Some? ==> ValidLabel(r.value.0)
  {
    var a :- ExpectChar(t, '[');
    var l :- LabelToken(TrimStart(a));
    var b :- ExpectChar(TrimStart(l.1), ']');
    Some((LabelOfToken(l.0), b))
  }

  /** `Instruction.compile`. The sentence is everything up to the first
      newline after the label; what follows the newline must be
      whitespace, or the line does not match at all. */
  function ParseInstruction(d: Dialect, line: string): (r: Result<Instruction>)
    ensures r.Success? && d != Oldest ==> ValidInstruction(r.value)
    ensures r.Success? ==> (r.value.lineLabel.Some? <==> LabelPrefix(TrimStart(line)).Some?)
    ensures r.Success? && r.value.lineLabel.Some? ==> r.value.lineLabel.value == LabelPrefix(TrimStart(line)).value.0
  {
    var t := TrimStart(line);
    var head := match LabelPrefix(t)
      case Some((l, rest)) => (Some(l), rest)
      case None => (None, t);
    var sentence :- ParseSentenceLine(d, TrimStart(head.1));
    Success(Instruction(head.0, sentence))
  }

  /** The sentence part of an instruction line: the text up to the first
      newline, followed by nothing but whitespace. */
  function ParseSentenceLine(d: Dialect, u: string): (r: Result<Sentence>)
    ensures r.Success? && d != Oldest ==> ValidSentence(r.value)
  {
    var q := LineLength(u);
    if TrimStart(u[q..]) != [] then Failure("Failed to compile instruction")
    else ParseSentence(d, u[..q])
  }

  // ---------------------------------------------------------------------
  // Printers: the `__str__` methods.

  function ShowVariable(v: Variable): string {
    [VarChar(v.name)] + IndexSuffix(v.index)
  }

  function ShowLabel(l: Label): string {
    [LabelChar(l.name)] + IndexSuffix(l.index)
  }

  /** A valid variable prints as a token naming it. */
  lemma ShowVariableToken(v: Variable)
    requires ValidVariable(v)
    ensures var r := ShowVariable(v);
            IsVariableToken(r) && VarNameOf(r[0]) == Some(v.name) && IndexOf(r[1..]) == v.index
  {
    assert ShowVariable(v)[1..] == IndexSuffix(v.index);
    IndexSuffixRoundTrip(v.index, []);
  }

  /** A valid label prints as a token naming it. */
  lemma ShowLabelToken(l: Label)
    requires ValidLabel(l)
    ensures var r := ShowLabel(l);
            IsLabelToken(r) && LabelNameOf(r[0]) == Some(l.name) && IndexOf(r[1..]) == l.index
  {
    assert ShowLabel(l)[1..] == IndexSuffix(l.index);
    IndexSuffixRoundTrip(l.index, []);
  }

  function ShowOp(op: Op): string {
    match op
    case NoOp => ""
    case Increment => " + 1"
    case Decrement => " - 1"
  }

  function ShowSentence(s: Sentence): string {
    match s
    case SetOp(v, op) => ShowVariable(v) + " <- " + ShowVariable(v) + ShowOp(op)
    case Jump(v, l) => "IF " + ShowVariable(v) + " != 0 GOTO " + ShowLabel(l)
  }

  /** `[L] ` in front of a labelled instruction, nothing otherwise. */
  function LinePrefix(l: Option<Label>): string {
    match l
    case None => ""
    case Some(x) => "[" + ShowLabel(x) + "] "
  }

  function ShowInstruction(i: Instruction): string {
    LinePrefix(i.lineLabel) + ShowSentence(i.sentence)
  }

  // ---------------------------------------------------------------------
  // Printing then parsing

  /** A name character, an index text and text that does not continue
      the index split into a token and the rest. */
  lemma IndexLengthOf(d: string, r: string)
    requires IsIndexText(d)
    requires r == [] || !IsDigit(r[0])
    ensures IndexLength(d + r) == |d|
  {
    if d == [] {
      assert d + r == r;
    } else {
      assert (d + r)[1..] == d[1..] + r;
      DigitRunOf(d[1..], r);
    }
  }

  lemma VariableTokenOf(c: char, d: string, r: string)
    requires VarNameOf(c).Some? && IsIndexText(d)
    requires r == [] || !IsDigit(r[0])
    ensures VariableToken([c] + d + r) == Some(([c] + d, r))
  {
    var s := [c] + d + r;
    assert s[1..] == d + r;
    IndexLengthOf(d, r);
    assert s[..1 + |d|] == [c] + d;
    assert s[1 + |d|..] == r;
  }

  lemma LabelTokenOf(c: char, d: string, r: string)
    requires LabelNameOf(c).Some? && IsIndexText(d)
    requires r == [] || !IsDigit(r[0])
    ensures LabelToken([c] + d + r) == Some(([c] + d, r))
  {
    var s := [c] + d + r;
    assert s[1..] == d + r;
    IndexLengthOf(d, r);
    assert s[..1 + |d|] == [c] + d;
    assert s[1 + |d|..] == r;
  }

  lemma VariableTokenOfShow(v: Variable, r: string)
    requires ValidVariable(v)
    requires r == [] || !IsDigit(r[0])
    ensures VariableToken(ShowVariable(v) + r) == Some((ShowVariable(v), r))
  {
    IndexSuffixRoundTrip(v.index, r);
    assert VarNameOf(VarChar(v.name)).Some?;
    VariableTokenOf(VarChar(v.name), IndexSuffix(v.index), r);
  }

  /** Every dialect reads a printed valid variable back. */
  lemma VariableOfShow(d: Dialect, v: Variable)
    requires ValidVariable(v)
    ensures IsVariableToken(ShowVariable(v))
    ensures VariableOfToken(d, ShowVariable(v)) == Success(v)
  {
    var t := ShowVariable(v);
    IndexSuffixRoundTrip(v.index, []);
    assert t[1..] == IndexSuffix(v.index);
  }

  /** `Variable.compile` on a bare token reads the token. */
  lemma ParseVariableOf(d: Dialect, t: string, v: Variable)
    requires VariableToken(t + []) == Some((t, []))
    requires IsVariableToken(t) && VariableOfToken(d, t) == Success(v)
    ensures ParseVariable(d, t) == Success(Some(v))
  {
    assert t + [] == t;
    assert TrimStart(t) == t by {
      TrimStartOf([], t);
      assert [] + t == t;
    }
  }

  lemma ParseVariableShow(d: Dialect, v: Variable)
    requires ValidVariable(v)
    ensures ParseVariable(d, ShowVariable(v)) == Success(Some(v))
  {
    VariableTokenOfShow(v, []);
    VariableOfShow(d, v);
    ParseVariableOf(d, ShowVariable(v), v);
  }

  lemma LabelTokenOfShow(l: Label, r: string)
    requires ValidLabel(l)
    requires r == [] || !IsDigit(r[0])
    ensures LabelToken(ShowLabel(l) + r) == Some((ShowLabel(l), r))
    ensures IsLabelToken(ShowLabel(l)) && LabelOfToken(ShowLabel(l)) == l
  {
    IndexSuffixRoundTrip(l.index, r);
    assert LabelNameOf(LabelChar(l.name)) == Some(l.name);
    LabelTokenOf(LabelChar(l.name), IndexSuffix(l.index), r);
    assert ShowLabel(l)[1..] == IndexSuffix(l.index);
  }

  lemma ParseLabelShow(l: Label)
    requires ValidLabel(l)
    ensures ParseLabel(ShowLabel(l)) == Success(l)
  {
    var t := ShowLabel(l);
    TrimStartOf([], t);
    assert [] + t == t;
    LabelTokenOfShow(l, []);
    assert t + [] == t;
  }

  lemma OpSuffixShow(op: Op)
    ensures OpSuffix(ShowOp(op)) == Some(op)
  {
    match op
    case NoOp =>
    case Increment => SignOneShow('+');
    case Decrement => SignOneShow('-');
  }

  /** The text ` + 1` or ` - 1` reads as a sign followed by `1`. */
  lemma SignOneShow(sign: char)
    requires sign == '+' || sign == '-'
    ensures OpSuffix([' ', sign, ' ', '1']) == Some(if sign == '+' then Increment else Decrement)
  {
    var t := [' ', sign, ' ', '1'];
    assert TrimStart(t) == [sign, ' ', '1'] by {
      TrimStartOf([' '], [sign, ' ', '1']);
      assert t == [' '] + [sign, ' ', '1'];
    }
    assert TrimStart([' ', '1']) == ['1'] by {
      TrimStartOf([' '], ['1']);
      assert [' ', '1'] == [' '] + ['1'];
    }
    assert [sign, ' ', '1'][1..] == [' ', '1'];
  }

  /** The set-operation pattern reads a variable token, ` <- `, a second
      variable token and an operation suffix. */
  lemma SetOpFormOf(sv: string, so: string, op: Op)
    requires VariableToken(sv + (" <- " + sv + so)) == Some((sv, " <- " + sv + so))
    requires VariableToken(sv + so) == Some((sv, so))
    requires OpSuffix(so) == Some(op)
    ensures SetOpForm(sv + " <- " + sv + so) == Some((sv, sv, op))
  {
    var x := sv + so;
    var s := sv + (" <- " + x);
    Regroup(sv, " <- ", sv, so);
    TokenAtStart(s, sv, " <- " + x);
    ArrowSteps(x);
    SpaceBeforeToken(x);
    SetOpFormBy(s, sv, " <- " + x, "- " + x, " " + x, sv, so, op);
  }

  /** A variable token is not preceded by whitespace. */
  lemma TokenAtStart(s: string, v: string, rest: string)
    requires VariableToken(s) == Some((v, rest))
    ensures VariableToken(TrimStart(s)) == Some((v, rest))
  {
    VariableTokenStart(s);
    TrimStartOf([], s);
    assert [] + s == s;
  }

  /** The arrow ` <- ` read one character at a time. */
  lemma ArrowSteps(x: string)
    ensures ExpectChar(TrimStart(" <- " + x), '<') == Some("- " + x)
    ensures ExpectChar(TrimStart("- " + x), '-') == Some(" " + x)
  {
    assert " <- " + x == [' '] + ['<'] + ("- " + x);
    ExpectCharAfter([' '], '<', "- " + x);
    assert "- " + x == [] + ['-'] + (" " + x);
    ExpectCharAfter([], '-', " " + x);
  }

  /** One space before a variable token is skipped. */
  lemma SpaceBeforeToken(x: string)
    requires VariableToken(x).Some?
    ensures TrimStart(" " + x) == x
  {
    VariableTokenStart(x);
    TrimStartOf(" ", x);
  }

  lemma Regroup(a: string, b: string, c: string, d: string)
    ensures a + b + c + d == a + (b + (c + d)) && b + c + d == b + (c + d)
  {
  }

  /** The set-operation pattern, one step at a time. */
  lemma SetOpFormBy(s: string, v0: string, v1: string, a: string, b: string, w0: string, w1: string, op: Op)
    requires VariableToken(TrimStart(s)) == Some((v0, v1))
    requires ExpectChar(TrimStart(v1), '<') == Some(a)
    requires ExpectChar(TrimStart(a), '-') == Some(b)
    requires VariableToken(TrimStart(b)) == Some((w0, w1))
    requires OpSuffix(w1) == Some(op)
    ensures SetOpForm(s) == Some((v0, w0, op))
  {
  }

  lemma SetOpFormShow(v: Variable, op: Op)
    requires ValidVariable(v)
    ensures SetOpForm(ShowVariable(v) + " <- " + ShowVariable(v) + ShowOp(op)) ==
            Some((ShowVariable(v), ShowVariable(v), op))
  {
    var sv := ShowVariable(v);
    var so := ShowOp(op);
    VariableTokenOfShow(v, " <- " + sv + so);
    VariableTokenOfShow(v, so);
    OpSuffixShow(op);
    SetOpFormOf(sv, so, op);
  }

  /** A character after optional whitespace is read by `ExpectChar`. */
  lemma ExpectCharAfter(w: string, c: char, r: string)
    requires AllSpaces(w) && !IsSpace(c)
    ensures ExpectChar(TrimStart(w + [c] + r), c) == Some(r)
  {
    assert w + [c] + r == w + ([c] + r);
    TrimStartOf(w, [c] + r);
    assert ([c] + r)[1..] == r;
  }

  lemma GotoTailOf(sl: string)
    requires LabelToken(sl + []) == Some((sl, []))
    ensures GotoTail(" GOTO " + sl) == Some(sl)
  {
    var s := " GOTO " + sl;
    assert TrimStart(s) == "GOTO " + sl by {
      assert s == " " + ("GOTO " + sl);
      TrimStartOf(" ", "GOTO " + sl);
    }
    assert ExpectWord("GOTO " + sl, "GOTO") == Some(" " + sl) by {
      assert ("GOTO " + sl)[4..] == " " + sl;
    }
    assert TrimStart(" " + sl) == sl by {
      assert sl + [] == sl;
      TrimStartOf(" ", sl);
    }
    assert sl + [] == sl;
  }

  lemma GotoTailShow(l: Label)
    requires ValidLabel(l)
    ensures GotoTail(" GOTO " + ShowLabel(l)) == Some(ShowLabel(l))
  {
    LabelTokenOfShow(l, []);
    GotoTailOf(ShowLabel(l));
  }

  lemma JumpTailShow(l: Label)
    requires ValidLabel(l)
    ensures JumpTail(" != 0 GOTO " + ShowLabel(l)) == Some(ShowLabel(l))
  {
    var g := " GOTO " + ShowLabel(l);
    assert " != 0 GOTO " + ShowLabel(l) == [' '] + ['!'] + ("= 0" + g);
    ExpectCharAfter([' '], '!', "= 0" + g);
    assert "= 0" + g == [] + ['='] + (" 0" + g);
    ExpectCharAfter([], '=', " 0" + g);
    assert " 0" == [' '] + ['0'];
    assert " 0" + g == [' '] + ['0'] + g;
    ExpectCharAfter([' '], '0', g);
    GotoTailShow(l);
  }

  /** The jump pattern reads `IF `, a variable token and a jump tail. */
  lemma JumpFormOf(sv: string, sl: string)
    requires VariableToken(sv + (" != 0 GOTO " + sl)) == Some((sv, " != 0 GOTO " + sl))
    requires JumpTail(" != 0 GOTO " + sl) == Some(sl)
    ensures JumpForm("IF " + sv + " != 0 GOTO " + sl) == Some((sv, sl))
  {
    var x := sv + (" != 0 GOTO " + sl);
    var s := "IF" + (" " + x);
    assert s == "IF " + sv + " != 0 GOTO " + sl by {
      Regroup("IF ", sv, " != 0 GOTO ", sl);
      SplitWord("IF", " ", x);
    }
    assert ExpectWord(TrimStart(s), "IF") == Some(" " + x) by {
      TrimStartOf([], s);
      assert [] + s == s;
      assert s[0] == 'I' && s[1] == 'F';
      assert s[2..] == " " + x;
    }
    assert ExpectSpaces(" " + x) == Some(x) by {
      SpaceBeforeToken(x);
    }
    JumpFormBy(s, " " + x, x, sv, " != 0 GOTO " + sl, sl);
  }

  lemma SplitWord(a: string, b: string, c: string)
    ensures (a + b) + c == a + (b + c)
  {
  }

  /** The jump pattern, one step at a time. */
  lemma JumpFormBy(s: string, a: string, b: string, v0: string, v1: string, l: string)
    requires ExpectWord(TrimStart(s), "IF") == Some(a)
    requires ExpectSpaces(a) == Some(b)
    requires VariableToken(b) == Some((v0, v1))
    requires JumpTail(v1) == Some(l)
    ensures JumpForm(s) == Some((v0, l))
  {
  }

  lemma JumpFormShow(v: Variable, l: Label)
    requires ValidVariable(v) && ValidLabel(l)
    ensures JumpForm("IF " + ShowVariable(v) + " != 0 GOTO " + ShowLabel(l)) ==
            Some((ShowVariable(v), ShowLabel(l)))
  {
    VariableTokenOfShow(v, " != 0 GOTO " + ShowLabel(l));
    JumpTailShow(l);
    JumpFormOf(ShowVariable(v), ShowLabel(l));
  }

  /** Text starting with a variable letter is not a jump. */
  lemma NotJumpForm(t: string)
    requires |t| > 0 && VarNameOf(t[0]).Some?
    ensures JumpForm(t).None?
  {
    assert TrimStart(t) == t by {
      TrimStartOf([], t);
      assert [] + t == t;
    }
  }

  lemma ParseSetOpOf(d: Dialect, t: string, sv: string, v: Variable, op: Op)
    requires JumpForm(t).None?
    requires SetOpForm(t) == Some((sv, sv, op))
    requires IsVariableToken(sv) && VariableOfToken(d, sv) == Success(v)
    ensures ParseSentence(d, t) == Success(SetOp(v, op))
  {
  }

  lemma ParseJumpOf(d: Dialect, t: string, sv: string, sl: string, v: Variable, l: Label)
    requires JumpForm(t) == Some((sv, sl))
    requires IsVariableToken(sv) && VariableOfToken(d, sv) == Success(v)
    requires IsLabelToken(sl) && LabelOfToken(sl) == l
    ensures ParseSentence(d, t) == Success(Jump(v, l))
  {
  }

  /** Every dialect parses a printed valid sentence back to it. */
  lemma ParseSentenceShow(d: Dialect, s: Sentence)
    requires ValidSentence(s)
    ensures ParseSentence(d, ShowSentence(s)) == Success(s)
  {
    VariableOfShow(d, s.variable);
    match s
    case SetOp(v, op) =>
      var sv := ShowVariable(v);
      assert ShowSentence(s)[0] == sv[0];
      assert VarNameOf(sv[0]).Some?;
      NotJumpForm(ShowSentence(s));
      SetOpFormShow(v, op);
      ParseSetOpOf(d, ShowSentence(s), sv, v, op);
    case Jump(v, l) =>
      JumpFormShow(v, l);
      LabelTokenOfShow(l, []);
      ParseJumpOf(d, ShowSentence(s), ShowVariable(v), ShowLabel(l), v, l);
  }

  predicate NoNewline(s: string) {
    forall k :: 0 <= k < |s| ==> s[k] != '\n'
  }

  lemma NoNewlineJoin(a: string, b: string)
    requires NoNewline(a) && NoNewline(b)
    ensures NoNewline(a + b)
  {
    assert forall k :: |a| <= k < |a + b| ==> (a + b)[k] == b[k - |a|];
  }

  lemma ShowLabelOneLine(l: Label)
    requires ValidLabel(l)
    ensures NoNewline(ShowLabel(l))
  {
    IndexSuffixDigits(l.index);
    NameThenDigits(LabelChar(l.name), IndexSuffix(l.index));
  }

  lemma ShowVariableOneLine(v: Variable)
    requires ValidVariable(v)
    ensures NoNewline(ShowVariable(v))
  {
    IndexSuffixDigits(v.index);
    NameThenDigits(VarChar(v.name), IndexSuffix(v.index));
  }

  lemma IndexSuffixDigits(i: int)
    requires i >= 1
    ensures forall k :: 0 <= k < |IndexSuffix(i)| ==> IsDigit(IndexSuffix(i)[k])
  {
    if i != 1 {
      assert IndexSuffix(i) == NatDigits(i);
    }
  }

  lemma NameThenDigits(c: char, d: string)
    requires c != '\n'
    requires forall k :: 0 <= k < |d| ==> IsDigit(d[k])
    ensures NoNewline([c] + d)
  {
    assert forall k :: 1 <= k < |[c] + d| ==> ([c] + d)[k] == d[k - 1];
  }

  /** A printed valid sentence is one line: it holds no newline. */
  lemma ShowSentenceOneLine(s: Sentence)
    requires ValidSentence(s)
    ensures |ShowSentence(s)| > 0 && !IsSpace(ShowSentence(s)[0]) && ShowSentence(s)[0] != '['
    ensures NoNewline(ShowSentence(s))
  {
    var sv := ShowVariable(s.variable);
    ShowVariableOneLine(s.variable);
    match s
    case SetOp(v, op) =>
      NoNewlineJoin(sv, " <- ");
      NoNewlineJoin(sv + " <- ", sv);
      NoNewlineJoin(sv + " <- " + sv, ShowOp(op));
    case Jump(v, l) =>
      ShowLabelOneLine(l);
      NoNewlineJoin("IF ", sv);
      NoNewlineJoin("IF " + sv, " != 0 GOTO ");
      NoNewlineJoin("IF " + sv + " != 0 GOTO ", ShowLabel(l));
  }

  /** The sentence region of an instruction line: one line of text ended
      by a newline or by nothing. */
  lemma SentenceLineOf(d: Dialect, st: string, tail: string, s: Sentence)
    requires forall k :: 0 <= k < |st| ==> st[k] != '\n'
    requires tail == [] || tail == "\n"
    requires ParseSentence(d, st) == Success(s)
    ensures ParseSentenceLine(d, st + tail) == Success(s)
  {
    LineLengthOf(st, tail);
    assert (st + tail)[|st|..] == tail;
    assert (st + tail)[..|st|] == st;
    TrimStartOf(tail, []);
    assert tail + [] == tail;
  }

  /** A line without a label: padding, then the sentence region. */
  lemma ParseUnlabelledOf(d: Dialect, pad: string, body: string, s: Sentence)
    requires AllSpaces(pad)
    requires |body| > 0 && !IsSpace(body[0]) && body[0] != '['
    requires ParseSentenceLine(d, body) == Success(s)
    ensures ParseInstruction(d, pad + body) == Success(Instruction(None, s))
  {
    TrimStartOf(pad, body);
    assert LabelPrefix(body).None?;
    TrimStartOf([], body);
    assert [] + body == body;
  }

  /** `[`, a label token and `]` make a label prefix. */
  lemma LabelPrefixOf(sl: string, l: Label, rest: string)
    requires IsLabelToken(sl) && LabelOfToken(sl) == l
    requires LabelToken(sl + ("]" + rest)) == Some((sl, "]" + rest))
    ensures LabelPrefix("[" + (sl + ("]" + rest))) == Some((l, rest))
  {
    var y := "]" + rest;
    var x := sl + y;
    CharThen('[', x);
    LabelTokenStart(x, sl, y);
    CharThen(']', rest);
    LabelPrefixBy("[" + x, x, sl, y, rest);
  }

  /** A character that is not whitespace is kept by `TrimStart` and matched
      by `ExpectChar`. */
  lemma CharThen(c: char, r: string)
    requires !IsSpace(c)
    ensures TrimStart([c] + r) == [c] + r && ExpectChar([c] + r, c) == Some(r)
  {
    assert ([c] + r)[1..] == r;
  }

  /** A label token does not start with whitespace. */
  lemma LabelTokenStart(s: string, t: string, rest: string)
    requires LabelToken(s) == Some((t, rest))
    ensures TrimStart(s) == s
  {
    assert IsLabelToken(t) && s == t + rest;
    assert s[0] == t[0];
    LabelCharNotSpace(t[0]);
  }

  lemma LabelCharNotSpace(c: char)
    requires LabelNameOf(c).Some?
    ensures !IsSpace(c)
  {
  }

  /** The label prefix pattern, one step at a time. */
  lemma LabelPrefixBy(t: string, a: string, l0: string, l1: string, b: string)
    requires ExpectChar(t, '[') == Some(a)
    requires LabelToken(TrimStart(a)) == Some((l0, l1))
    requires ExpectChar(TrimStart(l1), ']') == Some(b)
    ensures LabelPrefix(t) == Some((LabelOfToken(l0), b))
  {
  }

  /** A line with a label prefix: the sentence region follows the prefix
      after any whitespace. */
  lemma ParseLabelledOf(d: Dialect, sl: string, l: Label, pad: string, body: string, s: Sentence)
    requires IsLabelToken(sl) && LabelOfToken(sl) == l
    requires LabelToken(sl + ("]" + (pad + body))) == Some((sl, "]" + (pad + body)))
    requires AllSpaces(pad)
    requires |body| > 0 && !IsSpace(body[0])
    requires ParseSentenceLine(d, body) == Success(s)
    ensures ParseInstruction(d, "[" + (sl + ("]" + (pad + body)))) == Success(Instruction(Some(l), s))
  {
    var line := "[" + (sl + ("]" + (pad + body)));
    assert TrimStart(line) == line by {
      TrimStartOf([], line);
      assert [] + line == line;
    }
    LabelPrefixOf(sl, l, pad + body);
    TrimStartOf(pad, body);
  }

  /** An instruction printed as `Program.__str__` lays it out -- its label
      prefix, any padding, its sentence -- and ended by a newline or by
      nothing, parses back to the instruction in every dialect. */
  lemma ParseInstructionShowPadded(d: Dialect, i: Instruction, pad: string, tail: string)
    requires ValidInstruction(i)
    requires AllSpaces(pad)
    requires tail == [] || tail == "\n"
    ensures ParseInstruction(d, LinePrefix(i.lineLabel) + pad + ShowSentence(i.sentence) + tail) == Success(i)
  {
    var st := ShowSentence(i.sentence);
    assert ParseSentenceLine(d, st + tail) == Success(i.sentence) && |st| > 0 && !IsSpace(st[0]) && st[0] != '[' by {
      ShowSentenceOneLine(i.sentence);
      ParseSentenceShow(d, i.sentence);
      SentenceLineOf(d, st, tail, i.sentence);
    }
    if i.lineLabel.None? {
      ShowUnlabelled(d, pad, st + tail, i.sentence);
      JoinAssoc([], pad, st, tail);
    } else {
      var l := i.lineLabel.value;
      ShowLabelled(d, l, pad, st + tail, i.sentence);
      JoinAssoc("[" + ShowLabel(l) + "] ", pad, st, tail);
    }
  }

  /** Regrouping of a three-part concatenation. */
  lemma AppendAssoc<T>(a: seq<T>, b: seq<T>, c: seq<T>)
    ensures a + b + c == a + (b + c)
  {
  }

  /** Regrouping of a four-part concatenation. */
  lemma JoinAssoc(p: string, a: string, b: string, c: string)
    ensures p + a + b + c == p + a + (b + c)
    ensures [] + a + (b + c) == a + (b + c)
  {
  }

  lemma ShowUnlabelled(d: Dialect, pad: string, body: string, s: Sentence)
    requires AllSpaces(pad)
    requires |body| > 0 && !IsSpace(body[0]) && body[0] != '['
    requires ParseSentenceLine(d, body) == Success(s)
    ensures ParseInstruction(d, pad + body) == Success(Instruction(None, s))
  {
    ParseUnlabelledOf(d, pad, body, s);
  }

  lemma ShowLabelled(d: Dialect, l: Label, pad: string, body: string, s: Sentence)
    requires ValidLabel(l)
    requires AllSpaces(pad)
    requires |body| > 0 && !IsSpace(body[0])
    requires ParseSentenceLine(d, body) == Success(s)
    ensures ParseInstruction(d, "[" + ShowLabel(l) + "] " + pad + body) == Success(Instruction(Some(l), s))
  {
    var sl := ShowLabel(l);
    var pad' := " " + pad;
    assert AllSpaces(pad');
    LabelTokenOfShow(l, "]" + (pad' + body));
    ParseLabelledOf(d, sl, l, pad', body, s);
    BracketRegroup(sl, pad, body);
  }

  lemma BracketRegroup(a: string, b: string, c: string)
    ensures "[" + a + "] " + b + c == "[" + (a + ("]" + ((" " + b) + c)))
  {
  }

  /** `Instruction.compile(str(i)) == i` for every valid instruction. */
  lemma ParseInstructionShow(d: Dialect, i: Instruction)
    requires ValidInstruction(i)
    ensures ParseInstruction(d, ShowInstruction(i)) == Success(i)
  {
    ParseInstructionShowPadded(d, i, [], []);
    JoinEmpty(LinePrefix(i.lineLabel), ShowSentence(i.sentence));
  }

  lemma JoinEmpty(a: string, b: string)
    ensures a + [] + b + [] == a + b
  {
  }

  // ---------------------------------------------------------------------
  // What the sentence patterns match, part by part

  /** `t` is the word `w` written in any mix of ASCII cases. */
  predicate Spells(t: string, w: string) {
    |t| == |w| && forall k :: 0 <= k < |w| ==> Upper(t[k]) == w[k]
  }

  /** One way of writing a jump: the whitespace runs `gaps[0]` to `gaps[7]`
      between its parts, the spellings of `IF` and `GOTO`, and the
      variable and label tokens. The runs the pattern writes `\s+` are not
      empty. */
  datatype JumpLayout = JumpLayout(gaps: seq<string>, ifWord: string, variable: string, gotoWord: string, target: string)

  predicate JumpLayoutOk(j: JumpLayout) {
    |j.gaps| == 8 && (forall k :: 0 <= k < 8 ==> AllSpaces(j.gaps[k])) &&
    j.gaps[1] != [] && j.gaps[5] != [] && j.gaps[6] != [] &&
    Spells(j.ifWord, "IF") && Spells(j.gotoWord, "GOTO") &&
    IsVariableToken(j.variable) && IsLabelToken(j.target)
  }

  /** `\s*!\s*=\s*0` laid out, followed by `rest`. */
  function BangText(g2: string, g3: string, g4: string, rest: string): string {
    g2 + ("!" + (g3 + ("=" + (g4 + ("0" + rest)))))
  }

  /** `\s+GOTO\s+L\s*` laid out. */
  function GotoText(g5: string, gw: string, g6: string, l: string, g7: string): string {
    g5 + (gw + (g6 + (l + g7)))
  }

  function JumpText(j: JumpLayout): string
    requires |j.gaps| == 8
  {
    j.gaps[0] + (j.ifWord + (j.gaps[1] + (j.variable +
      BangText(j.gaps[2], j.gaps[3], j.gaps[4], GotoText(j.gaps[5], j.gotoWord, j.gaps[6], j.target, j.gaps[7])))))
  }

  /** One way of writing a set-operation: the whitespace runs `gaps[0]` to
      `gaps[5]`, the two variable tokens and the operation; `gaps[5]` lies
      between the sign and the `1`, so it is empty without an operation. */
  datatype SetOpLayout = SetOpLayout(gaps: seq<string>, variable: string, second: string, op: Op)

  predicate SetOpLayoutOk(o: SetOpLayout) {
    |o.gaps| == 6 && (forall k :: 0 <= k < 6 ==> AllSpaces(o.gaps[k])) &&
    (o.op == NoOp ==> o.gaps[5] == []) &&
    IsVariableToken(o.variable) && IsVariableToken(o.second)
  }

  /** `([+-]\s*1)?` laid out. */
  function OpText(op: Op, g: string): string {
    match op
    case NoOp => []
    case Increment => "+" + (g + "1")
    case Decrement => "-" + (g + "1")
  }

  function SetOpText(o: SetOpLayout): string
    requires |o.gaps| == 6
  {
    o.gaps[0] + (o.variable + (o.gaps[1] + ("<" + (o.gaps[2] + ("-" + (o.gaps[3] +
      (o.second + (o.gaps[4] + OpText(o.op, o.gaps[5])))))))))
  }

  /** The jump scanner accepts exactly the layouts of the jump pattern, and
      captures their tokens. */
  lemma JumpFormLayout(s: string, vt: string, lt: string)
    ensures JumpForm(s) == Some((vt, lt)) <==>
            exists j :: JumpLayoutOk(j) && JumpText(j) == s && j.variable == vt && j.target == lt
  {
    if JumpForm(s) == Some((vt, lt)) {
      var j := JumpFormParts(s, vt, lt);
    }
    if j :| JumpLayoutOk(j) && JumpText(j) == s && j.variable == vt && j.target == lt {
      JumpFormOfLayout(j);
    }
  }

  /** The set-operation scanner accepts exactly the layouts of the
      set-operation pattern, and captures their tokens and operation. */
  lemma SetOpFormLayout(s: string, vt: string, wt: string, op: Op)
    ensures SetOpForm(s) == Some((vt, wt, op)) <==>
            exists o :: SetOpLayoutOk(o) && SetOpText(o) == s && o.variable == vt && o.second == wt && o.op == op
  {
    if SetOpForm(s) == Some((vt, wt, op)) {
      var o := SetOpFormParts(s, vt, wt, op);
    }
    if o :| SetOpLayoutOk(o) && SetOpText(o) == s && o.variable == vt && o.second == wt && o.op == op {
      SetOpFormOfLayout(o);
    }
  }

  /** Two variable tokens of a set-operation name the same variable as the
      copy compares them: the legacy copy compares the parsed variables,
      the others the texts. */
  predicate SameVariableText(d: Dialect, a: string, b: string)
    requires IsVariableToken(a) && IsVariableToken(b)
  {
    if d == Legacy then VariableOfToken(d, b) == VariableOfToken(d, a) else SameText(d, a, b)
  }

  /** `s` is a way of writing the sentence `t`: a layout of the jump
      pattern whose tokens compile to `t`'s variable and label, or a layout
      of the set-operation pattern whose first token compiles to `t`'s
      variable, whose second token names the same variable and whose
      operation is `t`'s. */
  ghost predicate WritesSentence(d: Dialect, s: string, t: Sentence) {
    match t
    case Jump(v, l) =>
      exists j :: JumpLayoutOk(j) && JumpText(j) == s &&
                  VariableOfToken(d, j.variable) == Success(v) && LabelOfToken(j.target) == l
    case SetOp(v, op) =>
      exists o :: SetOpLayoutOk(o) && SetOpText(o) == s && o.op == op &&
                  VariableOfToken(d, o.variable) == Success(v) && SameVariableText(d, o.variable, o.second)
  }

  /** `Sentence.compile` accepts exactly the texts that write a sentence,
      and returns the sentence they write. */
  lemma ParseSentenceWrites(d: Dialect, s: string, t: Sentence)
    ensures ParseSentence(d, s) == Success(t) <==> WritesSentence(d, s, t)
  {
    if ParseSentence(d, s) == Success(t) {
      ParsedSentenceWritten(d, s, t);
    }
    if WritesSentence(d, s, t) {
      WrittenSentenceParses(d, s, t);
    }
  }

  lemma ParsedSentenceWritten(d: Dialect, s: string, t: Sentence)
    requires ParseSentence(d, s) == Success(t)
    ensures WritesSentence(d, s, t)
  {
    if JumpForm(s).Some? {
      var (vt, lt) := JumpForm(s).value;
      var j := JumpFormParts(s, vt, lt);
    } else {
      var (vt, wt, op) := SetOpForm(s).value;
      var o := SetOpFormParts(s, vt, wt, op);
    }
  }

  lemma WrittenSentenceParses(d: Dialect, s: string, t: Sentence)
    requires WritesSentence(d, s, t)
    ensures ParseSentence(d, s) == Success(t)
  {
    match t
    case Jump(v, l) =>
      var j :| JumpLayoutOk(j) && JumpText(j) == s &&
               VariableOfToken(d, j.variable) == Success(v) && LabelOfToken(j.target) == l;
      JumpLayoutParses(d, j);
    case SetOp(v, op) =>
      var o :| SetOpLayoutOk(o) && SetOpText(o) == s && o.op == op &&
               VariableOfToken(d, o.variable) == Success(v) && SameVariableText(d, o.variable, o.second);
      SetOpLayoutParses(d, o);
  }

  lemma JumpLayoutParses(d: Dialect, j: JumpLayout)
    requires JumpLayoutOk(j) && VariableOfToken(d, j.variable).Success?
    ensures ParseSentence(d, JumpText(j)) == Success(Jump(VariableOfToken(d, j.variable).value, LabelOfToken(j.target)))
  {
    JumpFormOfLayout(j);
  }

  lemma SetOpLayoutParses(d: Dialect, o: SetOpLayout)
    requires SetOpLayoutOk(o) && VariableOfToken(d, o.variable).Success? && SameVariableText(d, o.variable, o.second)
    ensures ParseSentence(d, SetOpText(o)) == Success(SetOp(VariableOfToken(d, o.variable).value, o.op))
  {
    SetOpNotJump(o);
    SetOpFormOfLayout(o);
  }

  // Reading a layout

  lemma ExpectWordOf(t: string, w: string, r: string)
    requires Spells(t, w)
    ensures ExpectWord(t + r, w) == Some(r)
  {
    assert forall k :: 0 <= k < |w| ==> (t + r)[k] == t[k];
    assert (t + r)[|w|..] == r;
  }

  /** A spelling of `IF` or `GOTO` does not start with whitespace. */
  lemma SpelledStart(t: string, w: string, r: string)
    requires Spells(t, w) && |w| > 0 && (w[0] == 'I' || w[0] == 'G')
    ensures |t + r| > 0 && !IsSpace((t + r)[0]) && (t + r)[0] != '['
    ensures VarNameOf((t + r)[0]).None?
  {
    assert (t + r)[0] == t[0];
  }

  /** Whitespace before a character that is not whitespace is skipped and
      the character read. */
  lemma SkipChar(w: string, c: char, r: string)
    requires AllSpaces(w) && !IsSpace(c)
    ensures ExpectChar(TrimStart(w + ([c] + r)), c) == Some(r)
  {
    TrimStartOf(w, [c] + r);
    assert ([c] + r)[1..] == r;
  }

  /** Whitespace before a token is skipped. */
  lemma SkipToToken(w: string, t: string, r: string)
    requires AllSpaces(w) && |t| > 0 && (VarNameOf(t[0]).Some? || LabelNameOf(t[0]).Some?)
    ensures TrimStart(w + (t + r)) == t + r
  {
    assert (t + r)[0] == t[0];
    TrimStartOf(w, t + r);
  }

  /** A run of whitespace that is not empty, before a token, is read by `\s+`. */
  lemma SpacesToToken(w: string, t: string, r: string)
    requires AllSpaces(w) && w != [] && |t| > 0 && (VarNameOf(t[0]).Some? || LabelNameOf(t[0]).Some?)
    ensures ExpectSpaces(w + (t + r)) == Some(t + r)
  {
    SkipToToken(w, t, r);
  }

  /** What follows a token in a layout: nothing, or a character that is not
      a digit. */
  predicate EndsToken(r: string) {
    r == [] || !IsDigit(r[0])
  }

  lemma VariableTokenThen(t: string, r: string)
    requires IsVariableToken(t) && EndsToken(r)
    ensures VariableToken(t + r) == Some((t, r))
  {
    assert t == [t[0]] + t[1..];
    VariableTokenOf(t[0], t[1..], r);
  }

  lemma LabelTokenThen(t: string, r: string)
    requires IsLabelToken(t) && EndsToken(r)
    ensures LabelToken(t + r) == Some((t, r))
  {
    assert t == [t[0]] + t[1..];
    LabelTokenOf(t[0], t[1..], r);
  }

  lemma GotoTailOfText(g5: string, gw: string, g6: string, l: string, g7: string)
    requires AllSpaces(g5) && AllSpaces(g6) && AllSpaces(g7) && g5 != [] && g6 != []
    requires Spells(gw, "GOTO") && IsLabelToken(l)
    ensures GotoTail(GotoText(g5, gw, g6, l, g7)) == Some(l)
  {
    var u := l + g7;
    var z := g6 + u;
    var y := gw + z;
    SpelledStart(gw, "GOTO", z);
    TrimStartOf(g5, y);
    ExpectWordOf(gw, "GOTO", z);
    SpacesToToken(g6, l, g7);
    LabelTokenThen(l, g7);
    TrimStartOf(g7, []);
    assert g7 + [] == g7;
    GotoTailBy(GotoText(g5, gw, g6, l, g7), y, z, u, l, g7);
  }

  lemma GotoTailBy(x: string, y: string, z: string, u: string, l: string, g7: string)
    requires ExpectSpaces(x) == Some(y)
    requires ExpectWord(y, "GOTO") == Some(z)
    requires ExpectSpaces(z) == Some(u)
    requires LabelToken(u) == Some((l, g7))
    requires TrimStart(g7) == []
    ensures GotoTail(x) == Some(l)
  {
  }

  lemma JumpTailOfText(g2: string, g3: string, g4: string, rest: string, l: string)
    requires AllSpaces(g2) && AllSpaces(g3) && AllSpaces(g4)
    requires GotoTail(rest) == Some(l)
    ensures JumpTail(BangText(g2, g3, g4, rest)) == Some(l)
  {
    var f := "0" + rest;
    var e := g4 + f;
    var c := "=" + e;
    var b := g3 + c;
    SkipChar(g2, '!', b);
    SkipChar(g3, '=', e);
    SkipChar(g4, '0', rest);
    JumpTailBy(BangText(g2, g3, g4, rest), b, e, rest, l);
  }

  lemma JumpTailBy(x: string, b: string, e: string, f: string, l: string)
    requires ExpectChar(TrimStart(x), '!') == Some(b)
    requires ExpectChar(TrimStart(b), '=') == Some(e)
    requires ExpectChar(TrimStart(e), '0') == Some(f)
    requires GotoTail(f) == Some(l)
    ensures JumpTail(x) == Some(l)
  {
  }

  lemma JumpFormOfLayout(j: JumpLayout)
    requires JumpLayoutOk(j)
    ensures JumpForm(JumpText(j)) == Some((j.variable, j.target))
  {
    var g := j.gaps;
    var rest := GotoText(g[5], j.gotoWord, g[6], j.target, g[7]);
    GotoTailOfText(g[5], j.gotoWord, g[6], j.target, g[7]);
    var bang := BangText(g[2], g[3], g[4], rest);
    JumpTailOfText(g[2], g[3], g[4], rest, j.target);
    assert EndsToken(bang) by {
      if g[2] != [] {
        assert bang[0] == g[2][0];
      } else {
        assert bang[0] == '!';
      }
    }
    VariableTokenThen(j.variable, bang);
    var x3 := j.variable + bang;
    SpacesToToken(g[1], j.variable, bang);
    var x2 := g[1] + x3;
    ExpectWordOf(j.ifWord, "IF", x2);
    var x1 := j.ifWord + x2;
    SpelledStart(j.ifWord, "IF", x2);
    TrimStartOf(g[0], x1);
    JumpFormBy(JumpText(j), x2, x3, j.variable, bang, j.target);
  }

  lemma OpSuffixOfText(g4: string, op: Op, g5: string)
    requires AllSpaces(g4) && AllSpaces(g5)
    ensures OpSuffix(g4 + OpText(op, g5)) == Some(op)
  {
    var t := OpText(op, g5);
    TrimStartOf(g4, t);
    if op != NoOp {
      assert t[1..] == g5 + "1";
      TrimStartOf(g5, "1");
    }
  }

  /** `\s*W\s*([+-]\s*1)?` laid out is read as the token `W` and the operation. */
  lemma SecondOfText(g3: string, w: string, g4: string, op: Op, g5: string)
    requires AllSpaces(g3) && AllSpaces(g4) && AllSpaces(g5) && IsVariableToken(w)
    ensures VariableToken(TrimStart(g3 + (w + (g4 + OpText(op, g5))))) == Some((w, g4 + OpText(op, g5)))
    ensures OpSuffix(g4 + OpText(op, g5)) == Some(op)
  {
    var x6 := g4 + OpText(op, g5);
    OpSuffixOfText(g4, op, g5);
    assert EndsToken(x6) by {
      if x6 != [] {
        if g4 != [] {
          assert x6[0] == g4[0];
        } else {
          assert x6 == OpText(op, g5);
        }
      }
    }
    VariableTokenThen(w, x6);
    SkipToToken(g3, w, x6);
  }

  /** `\s*V\s*<\s*-` laid out, before `x4`, is read as the token `V`. */
  lemma FirstOfText(g0: string, v: string, g1: string, g2: string, x4: string)
    requires AllSpaces(g0) && AllSpaces(g1) && AllSpaces(g2) && IsVariableToken(v)
    ensures var x3 := g2 + ("-" + x4);
            var x2 := g1 + ("<" + x3);
            VariableToken(TrimStart(g0 + (v + x2))) == Some((v, x2)) &&
            ExpectChar(TrimStart(x2), '<') == Some(x3) &&
            ExpectChar(TrimStart(x3), '-') == Some(x4)
  {
    var x3 := g2 + ("-" + x4);
    SkipChar(g2, '-', x4);
    var x2 := g1 + ("<" + x3);
    SkipChar(g1, '<', x3);
    assert EndsToken(x2) by {
      if g1 != [] {
        assert x2[0] == g1[0];
      } else {
        assert x2[0] == '<';
      }
    }
    VariableTokenThen(v, x2);
    SkipToToken(g0, v, x2);
  }

  lemma SetOpFormOfLayout(o: SetOpLayout)
    requires SetOpLayoutOk(o)
    ensures SetOpForm(SetOpText(o)) == Some((o.variable, o.second, o.op))
  {
    var g := o.gaps;
    var x6 := g[4] + OpText(o.op, g[5]);
    var x4 := g[3] + (o.second + x6);
    SecondOfText(g[3], o.second, g[4], o.op, g[5]);
    FirstOfText(g[0], o.variable, g[1], g[2], x4);
    SetOpFormBy(SetOpText(o), o.variable, g[1] + ("<" + (g[2] + ("-" + x4))), g[2] + ("-" + x4), x4, o.second, x6, o.op);
  }

  /** A set-operation layout is not a jump. */
  lemma SetOpNotJump(o: SetOpLayout)
    requires SetOpLayoutOk(o)
    ensures JumpForm(SetOpText(o)).None?
  {
    var g := o.gaps;
    var x1 := o.variable + (g[1] + ("<" + (g[2] + ("-" + (g[3] + (o.second + (g[4] + OpText(o.op, g[5]))))))));
    SkipToToken(g[0], o.variable, x1[|o.variable|..]);
    assert x1[0] == o.variable[0];
  }

  // Cutting an accepted text into a layout

  /** Text is its leading whitespace followed by what `TrimStart` keeps. */
  lemma SpacesThen(s: string) returns (w: string)
    ensures AllSpaces(w) && s == w + TrimStart(s)
    ensures |s| > 0 && IsSpace(s[0]) ==> w != []
  {
    TrimStartSplit(s);
    w := s[..|s| - |TrimStart(s)|];
  }

  lemma ExpectWordParts(s: string, w: string, r: string) returns (t: string)
    requires ExpectWord(s, w) == Some(r)
    ensures Spells(t, w) && s == t + r
  {
    t := s[..|w|];
  }

  lemma CharParts(s: string, c: char, r: string)
    requires ExpectChar(s, c) == Some(r)
    ensures s == [c] + r
  {
  }

  lemma GotoTailParts(x: string, l: string) returns (g5: string, gw: string, g6: string, g7: string)
    requires GotoTail(x) == Some(l)
    ensures AllSpaces(g5) && AllSpaces(g6) && AllSpaces(g7) && g5 != [] && g6 != []
    ensures Spells(gw, "GOTO") && IsLabelToken(l)
    ensures x == GotoText(g5, gw, g6, l, g7)
  {
    var y := ExpectSpaces(x).value;
    g5 := SpacesThen(x);
    var z := ExpectWord(y, "GOTO").value;
    gw := ExpectWordParts(y, "GOTO", z);
    var u := ExpectSpaces(z).value;
    g6 := SpacesThen(z);
    var (t, r) := LabelToken(u).value;
    g7 := SpacesThen(r);
    assert g7 + [] == g7;
  }

  lemma JumpTailParts(x: string, l: string) returns (g2: string, g3: string, g4: string, rest: string)
    requires JumpTail(x) == Some(l)
    ensures AllSpaces(g2) && AllSpaces(g3) && AllSpaces(g4)
    ensures GotoTail(rest) == Some(l)
    ensures x == BangText(g2, g3, g4, rest)
  {
    var b := ExpectChar(TrimStart(x), '!').value;
    g2 := SpacesThen(x);
    CharParts(TrimStart(x), '!', b);
    var e := ExpectChar(TrimStart(b), '=').value;
    g3 := SpacesThen(b);
    CharParts(TrimStart(b), '=', e);
    rest := ExpectChar(TrimStart(e), '0').value;
    g4 := SpacesThen(e);
    CharParts(TrimStart(e), '0', rest);
  }

  lemma JumpHeadParts(s: string, vt: string, lt: string) returns (g0: string, ifWord: string, g1: string, v1: string)
    requires JumpForm(s) == Some((vt, lt))
    ensures AllSpaces(g0) && AllSpaces(g1) && g1 != [] && Spells(ifWord, "IF") && IsVariableToken(vt)
    ensures s == g0 + (ifWord + (g1 + (vt + v1)))
    ensures JumpTail(v1) == Some(lt)
  {
    var a := ExpectWord(TrimStart(s), "IF").value;
    g0 := SpacesThen(s);
    ifWord := ExpectWordParts(TrimStart(s), "IF", a);
    var b := ExpectSpaces(a).value;
    g1 := SpacesThen(a);
    v1 := VariableToken(b).value.1;
  }

  lemma JumpFormParts(s: string, vt: string, lt: string) returns (j: JumpLayout)
    requires JumpForm(s) == Some((vt, lt))
    ensures JumpLayoutOk(j) && JumpText(j) == s && j.variable == vt && j.target == lt
  {
    var g0, ifWord, g1, v1 := JumpHeadParts(s, vt, lt);
    var g2, g3, g4, rest := JumpTailParts(v1, lt);
    var g5, gw, g6, g7 := GotoTailParts(rest, lt);
    j := JumpOfParts(g0, g1, g2, g3, g4, g5, g6, g7, ifWord, vt, gw, lt);
  }

  /** Putting the parts of an accepted jump together again. */
  lemma JumpOfParts(g0: string, g1: string, g2: string, g3: string, g4: string, g5: string, g6: string, g7: string,
                    ifWord: string, vt: string, gw: string, lt: string) returns (j: JumpLayout)
    requires AllSpaces(g0) && AllSpaces(g1) && AllSpaces(g2) && AllSpaces(g3)
    requires AllSpaces(g4) && AllSpaces(g5) && AllSpaces(g6) && AllSpaces(g7)
    requires g1 != [] && g5 != [] && g6 != []
    requires Spells(ifWord, "IF") && Spells(gw, "GOTO") && IsVariableToken(vt) && IsLabelToken(lt)
    ensures JumpLayoutOk(j) && j.variable == vt && j.target == lt
    ensures JumpText(j) == g0 + (ifWord + (g1 + (vt + BangText(g2, g3, g4, GotoText(g5, gw, g6, lt, g7)))))
  {
    var gaps := [g0, g1, g2, g3, g4, g5, g6, g7];
    j := JumpLayout(gaps, ifWord, vt, gw, lt);
  }

  lemma OpSuffixParts(x: string, op: Op) returns (g4: string, g5: string)
    requires OpSuffix(x) == Some(op)
    ensures AllSpaces(g4) && AllSpaces(g5) && (op == NoOp ==> g5 == [])
    ensures x == g4 + OpText(op, g5)
  {
    var t := TrimStart(x);
    g4 := SpacesThen(x);
    if t == [] {
      g5 := [];
      assert x == g4 + OpText(op, g5);
    } else {
      var w := SpacesThen(t[1..]);
      g5 := w;
      assert t == [t[0]] + (g5 + "1");
    }
  }

  lemma SetOpHeadParts(s: string, vt: string, wt: string, op: Op)
    returns (g0: string, g1: string, g2: string, g3: string, w1: string)
    requires SetOpForm(s) == Some((vt, wt, op))
    ensures AllSpaces(g0) && AllSpaces(g1) && AllSpaces(g2) && AllSpaces(g3)
    ensures IsVariableToken(vt) && IsVariableToken(wt) && OpSuffix(w1) == Some(op)
    ensures s == g0 + (vt + (g1 + ("<" + (g2 + ("-" + (g3 + (wt + w1)))))))
  {
    var v1 := VariableToken(TrimStart(s)).value.1;
    g0 := SpacesThen(s);
    var a := ExpectChar(TrimStart(v1), '<').value;
    g1 := SpacesThen(v1);
    CharParts(TrimStart(v1), '<', a);
    var b := ExpectChar(TrimStart(a), '-').value;
    g2 := SpacesThen(a);
    CharParts(TrimStart(a), '-', b);
    w1 := VariableToken(TrimStart(b)).value.1;
    g3 := SpacesThen(b);
  }

  lemma SetOpFormParts(s: string, vt: string, wt: string, op: Op) returns (o: SetOpLayout)
    requires SetOpForm(s) == Some((vt, wt, op))
    ensures SetOpLayoutOk(o) && SetOpText(o) == s && o.variable == vt && o.second == wt && o.op == op
  {
    var g0, g1, g2, g3, w1 := SetOpHeadParts(s, vt, wt, op);
    var g4, g5 := OpSuffixParts(w1, op);
    o := SetOpOfParts(g0, g1, g2, g3, g4, g5, vt, wt, op);
  }

  /** Putting the parts of an accepted set-operation together again. */
  lemma SetOpOfParts(g0: string, g1: string, g2: string, g3: string, g4: string, g5: string,
                     vt: string, wt: string, op: Op) returns (o: SetOpLayout)
    requires AllSpaces(g0) && AllSpaces(g1) && AllSpaces(g2) && AllSpaces(g3)
    requires AllSpaces(g4) && AllSpaces(g5) && (op == NoOp ==> g5 == [])
    requires IsVariableToken(vt) && IsVariableToken(wt)
    ensures SetOpLayoutOk(o) && o.variable == vt && o.second == wt && o.op == op
    ensures SetOpText(o) == g0 + (vt + (g1 + ("<" + (g2 + ("-" + (g3 + (wt + (g4 + OpText(op, g5)))))))))
  {
    o := SetOpLayout([g0, g1, g2, g3, g4, g5], vt, wt, op);
  }

  // ---------------------------------------------------------------------
  // What the instruction pattern matches, part by part

  /** The `[L]` in front of a sentence: whitespace inside the brackets on
      either side of the label token. */
  datatype TagLayout = TagLayout(before: string, token: string, after: string)

  /** One way of writing an instruction line: leading whitespace, the
      optional tag, whitespace, the sentence text up to the end of its line,
      and the rest, which is nothing or a newline followed by whitespace. */
  datatype LineLayout = LineLayout(lead: string, tag: Option<TagLayout>, pad: string, sentence: string, tail: string)

  predicate TagLayoutOk(g: TagLayout) {
    AllSpaces(g.before) && IsLabelToken(g.token) && AllSpaces(g.after)
  }

  predicate LineLayoutOk(o: LineLayout) {
    AllSpaces(o.lead) && (o.tag.Some? ==> TagLayoutOk(o.tag.value)) && AllSpaces(o.pad) &&
    NoNewline(o.sentence) && (o.sentence == [] || !IsSpace(o.sentence[0])) &&
    AllSpaces(o.tail) && (o.tail == [] || o.tail[0] == '\n')
  }

  /** The tag, if any, followed by `rest`. */
  function TagThen(tag: Option<TagLayout>, rest: string): string {
    match tag
    case None => rest
    case Some(g) => "[" + (g.before + (g.token + (g.after + ("]" + rest))))
  }

  function LineText(o: LineLayout): string {
    o.lead + TagThen(o.tag, o.pad + (o.sentence + o.tail))
  }

  /** `line` is a way of writing the instruction `i`: a layout of the
      instruction pattern whose tag is there exactly when `i` is labelled
      and compiles to its label, and whose sentence text compiles to `i`'s
      sentence. */
  ghost predicate WritesInstruction(d: Dialect, line: string, i: Instruction) {
    exists o :: LineLayoutOk(o) && LineText(o) == line &&
                (o.tag.Some? <==> i.lineLabel.Some?) &&
                (o.tag.Some? ==> LabelOfToken(o.tag.value.token) == i.lineLabel.value) &&
                ParseSentence(d, o.sentence) == Success(i.sentence)
  }

  /** `Instruction.compile` accepts exactly the lines that write an
      instruction, and returns the instruction they write. */
  lemma ParseInstructionWrites(d: Dialect, line: string, i: Instruction)
    ensures ParseInstruction(d, line) == Success(i) <==> WritesInstruction(d, line, i)
  {
    if ParseInstruction(d, line) == Success(i) {
      ParsedInstructionWritten(d, line, i);
    }
    if WritesInstruction(d, line, i) {
      var o :| LineLayoutOk(o) && LineText(o) == line &&
               (o.tag.Some? <==> i.lineLabel.Some?) &&
               (o.tag.Some? ==> LabelOfToken(o.tag.value.token) == i.lineLabel.value) &&
               ParseSentence(d, o.sentence) == Success(i.sentence);
      LineLayoutParses(d, o, i.sentence);
    }
  }

  /** Accepted sentence text that does not start with whitespace starts
      with a variable or a spelling of `IF`, never with a bracket. */
  lemma ParsedSentenceStart(d: Dialect, s: string)
    requires ParseSentence(d, s).Success?
    ensures s != []
    ensures !IsSpace(s[0]) ==> s[0] != '['
  {
    if JumpForm(s).Some? {
      JumpFormStart(s);
    } else {
      SetOpFormStart(s);
    }
  }

  lemma JumpFormStart(s: string)
    requires JumpForm(s).Some?
    ensures s != [] && (!IsSpace(s[0]) ==> s[0] != '[')
  {
    var t := TrimStart(s);
    assert ExpectWord(t, "IF").Some?;
    assert Upper(t[0]) == 'I';
    if !IsSpace(s[0]) {
      assert t == s;
    }
  }

  lemma SetOpFormStart(s: string)
    requires SetOpForm(s).Some?
    ensures s != [] && (!IsSpace(s[0]) ==> s[0] != '[')
  {
    var t := TrimStart(s);
    assert VariableToken(t).Some?;
    assert VarNameOf(t[0]).Some?;
    if !IsSpace(s[0]) {
      assert t == s;
    }
  }

  /** The sentence region of a layout is read up to its newline. */
  lemma SentenceRegionOf(d: Dialect, st: string, tail: string)
    requires NoNewline(st) && AllSpaces(tail) && (tail == [] || tail[0] == '\n')
    ensures ParseSentenceLine(d, st + tail) == ParseSentence(d, st)
  {
    LineLengthOf(st, tail);
    assert (st + tail)[|st|..] == tail;
    assert (st + tail)[..|st|] == st;
    TrimStartOf(tail, []);
    assert tail + [] == tail;
  }

  lemma TagParses(g: TagLayout, rest: string)
    requires TagLayoutOk(g)
    ensures LabelPrefix(TagThen(Some(g), rest)) == Some((LabelOfToken(g.token), rest))
  {
    var b := g.after + ("]" + rest);
    assert EndsToken(b) by {
      if g.after != [] {
        assert b[0] == g.after[0];
      } else {
        assert b[0] == ']';
      }
    }
    LabelTokenThen(g.token, b);
    SkipToToken(g.before, g.token, b);
    SkipChar(g.after, ']', rest);
    LabelPrefixBy(TagThen(Some(g), rest), g.before + (g.token + b), g.token, b, rest);
  }

  lemma LineLayoutParses(d: Dialect, o: LineLayout, s: Sentence)
    requires LineLayoutOk(o) && ParseSentence(d, o.sentence) == Success(s)
    ensures ParseInstruction(d, LineText(o)) ==
            Success(Instruction(if o.tag.Some? then Some(LabelOfToken(o.tag.value.token)) else None, s))
  {
    var body := BodyParses(d, o.sentence, o.tail, s);
    var x := o.pad + body;
    TrimStartOf(o.pad, body);
    match o.tag
    case None =>
      PlainLineParses(d, o.lead, o.pad, body, s);
    case Some(g) =>
      var t := TagThen(o.tag, x);
      TrimStartOf(o.lead, t);
      TagParses(g, x);
      TaggedInstructionBy(d, LineText(o), LabelOfToken(g.token), x, s);
  }

  /** The sentence text and the rest of the line after it. */
  lemma BodyParses(d: Dialect, st: string, tail: string, s: Sentence) returns (body: string)
    requires NoNewline(st) && (st == [] || !IsSpace(st[0]))
    requires AllSpaces(tail) && (tail == [] || tail[0] == '\n')
    requires ParseSentence(d, st) == Success(s)
    ensures body == st + tail && body != [] && !IsSpace(body[0]) && body[0] != '['
    ensures ParseSentenceLine(d, body) == Success(s)
  {
    ParsedSentenceStart(d, st);
    body := st + tail;
    assert body[0] == st[0];
    SentenceRegionOf(d, st, tail);
  }

  lemma PlainLineParses(d: Dialect, lead: string, pad: string, body: string, s: Sentence)
    requires AllSpaces(lead) && AllSpaces(pad)
    requires body != [] && !IsSpace(body[0]) && body[0] != '['
    requires ParseSentenceLine(d, body) == Success(s)
    ensures ParseInstruction(d, lead + (pad + body)) == Success(Instruction(None, s))
  {
    SkipBoth(lead, pad, body);
    LabelPrefixNone(body);
    TrimStartOf([], body);
    assert [] + body == body;
    PlainInstructionBy(d, lead + (pad + body), s);
  }

  lemma SkipBoth(lead: string, pad: string, body: string)
    requires AllSpaces(lead) && AllSpaces(pad) && body != [] && !IsSpace(body[0])
    ensures TrimStart(lead + (pad + body)) == body
  {
    assert lead + (pad + body) == (lead + pad) + body;
    AllSpacesJoin(lead, pad);
    TrimStartOf(lead + pad, body);
  }

  lemma PlainInstructionBy(d: Dialect, line: string, s: Sentence)
    requires LabelPrefix(TrimStart(line)).None?
    requires ParseSentenceLine(d, TrimStart(TrimStart(line))) == Success(s)
    ensures ParseInstruction(d, line) == Success(Instruction(None, s))
  {
  }

  lemma TaggedInstructionBy(d: Dialect, line: string, l: Label, rest: string, s: Sentence)
    requires LabelPrefix(TrimStart(line)) == Some((l, rest))
    requires ParseSentenceLine(d, TrimStart(rest)) == Success(s)
    ensures ParseInstruction(d, line) == Success(Instruction(Some(l), s))
  {
  }

  lemma AllSpacesJoin(a: string, b: string)
    requires AllSpaces(a) && AllSpaces(b)
    ensures AllSpaces(a + b)
  {
    assert forall k :: |a| <= k < |a + b| ==> (a + b)[k] == b[k - |a|];
  }

  lemma LabelPrefixNone(t: string)
    requires t != [] && t[0] != '['
    ensures LabelPrefix(t).None?
  {
  }

  lemma ParsedInstructionWritten(d: Dialect, line: string, i: Instruction)
    requires ParseInstruction(d, line) == Success(i)
    ensures WritesInstruction(d, line, i)
  {
    var lead, tag, rest := InstructionHeadParts(d, line, i);
    var pad, st, tail := SentenceRegionParts(d, rest, i.sentence);
    var o := LineLayout(lead, tag, pad, st, tail);
    assert LineText(o) == line;
  }

  lemma InstructionHeadParts(d: Dialect, line: string, i: Instruction)
    returns (lead: string, tag: Option<TagLayout>, rest: string)
    requires ParseInstruction(d, line) == Success(i)
    ensures AllSpaces(lead) && (tag.Some? ==> TagLayoutOk(tag.value)) && line == lead + TagThen(tag, rest)
    ensures (tag.Some? <==> i.lineLabel.Some?) && (tag.Some? ==> LabelOfToken(tag.value.token) == i.lineLabel.value)
    ensures ParseSentenceLine(d, TrimStart(rest)) == Success(i.sentence)
  {
    var t := TrimStart(line);
    lead := SpacesThen(line);
    if LabelPrefix(t).Some? {
      var g, r := TagParts(t);
      tag, rest := Some(g), r;
    } else {
      tag, rest := None, t;
    }
  }

  lemma SentenceRegionParts(d: Dialect, rest: string, s: Sentence) returns (pad: string, st: string, tail: string)
    requires ParseSentenceLine(d, TrimStart(rest)) == Success(s)
    ensures AllSpaces(pad) && NoNewline(st) && (st == [] || !IsSpace(st[0]))
    ensures AllSpaces(tail) && (tail == [] || tail[0] == '\n')
    ensures rest == pad + (st + tail) && ParseSentence(d, st) == Success(s)
  {
    var u := TrimStart(rest);
    var q := LineLength(u);
    assert TrimStart(u[q..]) == [] && ParseSentence(d, u[..q]) == Success(s);
    pad, st, tail := RegionParts(rest);
  }

  /** Leading whitespace, the text up to the first newline, and the rest. */
  lemma RegionParts(rest: string) returns (pad: string, st: string, tail: string)
    requires var u := TrimStart(rest); TrimStart(u[LineLength(u)..]) == []
    ensures AllSpaces(pad) && NoNewline(st) && (st == [] || !IsSpace(st[0]))
    ensures AllSpaces(tail) && (tail == [] || tail[0] == '\n')
    ensures rest == pad + (st + tail) && st == TrimStart(rest)[..LineLength(TrimStart(rest))]
  {
    var u := TrimStart(rest);
    pad := SpacesThen(rest);
    var q := LineLength(u);
    st, tail := u[..q], u[q..];
    var w := SpacesThen(tail);
    assert w == tail by {
      assert tail == w + [];
    }
    assert u == st + tail;
    if st != [] {
      assert st[0] == u[0];
    }
  }

  lemma TagParts(t: string) returns (g: TagLayout, rest: string)
    requires LabelPrefix(t).Some?
    ensures TagLayoutOk(g) && LabelOfToken(g.token) == LabelPrefix(t).value.0
    ensures rest == LabelPrefix(t).value.1 && t == TagThen(Some(g), rest)
  {
    var a := ExpectChar(t, '[').value;
    CharParts(t, '[', a);
    var before := SpacesThen(a);
    var (l0, l1) := LabelToken(TrimStart(a)).value;
    rest := ExpectChar(TrimStart(l1), ']').value;
    var after := SpacesThen(l1);
    CharParts(TrimStart(l1), ']', rest);
    g := TagLayout(before, l0, after);
  }
}
