/** The syntactic-sugar ("macro") engine, `SyntacticSugar`: a usage line with
    typed holes such as `{Variable V}`, and a body of template lines in
    which `{V}` stands for the captured argument and `{REPEAT N}` ...
    `{END REPEAT}` repeats lines as often as a `Const` argument says.

    The regular expressions the source builds from the usage line and the
    body are abstracted: a usage is given as the sequence of its typed
    holes, a body line as its pieces, and the invocation matcher as a
    function from a line to the texts its named groups capture. */
module Macro {
  import opened Wrappers
  import opened Syntax
  import opened Text

  // ---------------------------------------------------------------------
  // Sugar definitions

  /** The three argument types a usage hole can declare. */
  datatype ArgType = LabelArg | VariableArg | ConstArg

  /** A piece of a body line: literal text, or a `{name}` hole written as
      `raw`. A hole whose name is no argument stays in the line as written. */
  datatype Piece = Lit(text: string) | Hole(name: string, raw: string)

  /** A body line after classification:
      - `RepeatLine(name)`: `{REPEAT name}` with a name of letters and digits;
      - `EndRepeatLine`: `{END REPEAT}`;
      - `TextLine(pieces, looseRepeat)`: anything else, where `looseRepeat`
        records that the line still looks like `{REPEAT ...}` to the looser
        pattern the construction check uses (for example `{REPEAT 5}`). */
  datatype BodyLine =
    | TextLine(pieces: seq<Piece>, looseRepeat: bool)
    | RepeatLine(name: string)
    | EndRepeatLine

  /** A sugar: its title, its argument table (upper-case names in order of
      first appearance, with their types), its body, the sugars its body may
      use in turn, and its invocation matcher. The matcher maps the names of
      the table to the texts they capture; `None` means the line does not
      match the usage. */
  datatype Sugar = Sugar(
    title: string,
    args: seq<(string, ArgType)>,
    body: seq<BodyLine>,
    sugars: seq<Sugar>,
    matcher: string -> Option<map<string, string>>)

  /** A name as the case-insensitive patterns see it. */
  function UpperText(s: string): (r: string)
    ensures |r| == |s|
    ensures forall k :: 0 <= k < |s| ==> r[k] == Upper(s[k])
  {
    seq(|s|, k requires 0 <= k < |s| => Upper(s[k]))
  }

  /** The type an argument table gives a name. */
  function TypeOf(table: seq<(string, ArgType)>, name: string): (r: Option<ArgType>)
    ensures r.Some? <==> exists k :: 0 <= k < |table| && table[k].0 == name
    ensures forall k :: 0 <= k < |table| && table[k].0 == name ==> r.Some?
  {
    if |table| == 0 then None
    else if table[0].0 == name then Some(table[0].1)
    else TypeOf(table[1..], name)
  }

  /** Adds one hole of the usage line to the table: a new name is appended,
      a known name must keep its type. */
  function AddArg(table: seq<(string, ArgType)>, name: string, t: ArgType): Result<seq<(string, ArgType)>> {
    match TypeOf(table, name)
    case None => Success(table + [(name, t)])
    case Some(t') =>
      if t' == t then Success(table) else Failure("Sugar back-reference does not maintain the same type")
  }

  /** The argument table of a usage line whose typed holes are `holes`, in
      order. */
  function ArgTable(holes: seq<(string, ArgType)>): Result<seq<(string, ArgType)>>
    decreases |holes|
  {
    if |holes| == 0 then Success([])
    else
      var table :- ArgTable(holes[..|holes| - 1]);
      var h := holes[|holes| - 1];
      AddArg(table, UpperText(h.0), h.1)
  }

  /** Holes with the same name, up to case, declare the same type. */
  predicate TypesAgree(holes: seq<(string, ArgType)>) {
    forall i, j :: 0 <= i < j < |holes| && UpperText(holes[i].0) == UpperText(holes[j].0) ==> holes[i].1 == holes[j].1
  }

  /** What a table built from `holes` holds: distinct names, each hole's
      upper-cased name with its type, and nothing else. */
  predicate TableOf(table: seq<(string, ArgType)>, holes: seq<(string, ArgType)>) {
    DistinctNames(table) && HolesTyped(table, holes) && EntriesFromHoles(table, holes)
  }

  predicate DistinctNames(table: seq<(string, ArgType)>) {
    forall i, j :: 0 <= i < j < |table| ==> table[i].0 != table[j].0
  }

  predicate HolesTyped(table: seq<(string, ArgType)>, holes: seq<(string, ArgType)>) {
    forall i :: 0 <= i < |holes| ==> TypeOf(table, UpperText(holes[i].0)) == Some(holes[i].1)
  }

  predicate EntriesFromHoles(table: seq<(string, ArgType)>, holes: seq<(string, ArgType)>) {
    forall k :: 0 <= k < |table| ==> EntryOfHole(table[k], holes)
  }

  /** The entry is some hole's upper-cased name with its type. */
  predicate EntryOfHole(e: (string, ArgType), holes: seq<(string, ArgType)>) {
    exists i :: 0 <= i < |holes| && e == (UpperText(holes[i].0), holes[i].1)
  }

  lemma TypeOfAt(table: seq<(string, ArgType)>, k: int)
    requires 0 <= k < |table|
    requires forall i, j :: 0 <= i < j < |table| ==> table[i].0 != table[j].0
    ensures TypeOf(table, table[k].0) == Some(table[k].1)
  {
    if k > 0 {
      assert table[0].0 != table[k].0;
      TypeOfAt(table[1..], k - 1);
    }
  }

  lemma TypeOfAppend(table: seq<(string, ArgType)>, name: string, t: ArgType, other: string)
    ensures TypeOf(table + [(name, t)], other) ==
            if TypeOf(table, other).Some? then TypeOf(table, other)
            else if other == name then Some(t) else None
  {
    if |table| > 0 {
      assert (table + [(name, t)])[1..] == table[1..] + [(name, t)];
      TypeOfAppend(table[1..], name, t, other);
    }
  }

  /** A hole with a new name extends the table by one entry. */
  lemma TableOfAddNew(table: seq<(string, ArgType)>, front: seq<(string, ArgType)>, h: (string, ArgType))
    requires TableOf(table, front) && TypesAgree(front)
    requires TypeOf(table, UpperText(h.0)).None?
    ensures TableOf(table + [(UpperText(h.0), h.1)], front + [h])
    ensures TypesAgree(front + [h])
  {
    AgreeAddNew(table, front, h);
    TypesAddNew(table, front, h);
    EntriesAddNew(table, front, h);
    DistinctAddNew(table, h);
  }

  lemma AgreeAddNew(table: seq<(string, ArgType)>, front: seq<(string, ArgType)>, h: (string, ArgType))
    requires TableOf(table, front) && TypesAgree(front)
    requires TypeOf(table, UpperText(h.0)).None?
    ensures TypesAgree(front + [h])
  {
    var holes := front + [h];
    forall i, j | 0 <= i < j < |holes| && UpperText(holes[i].0) == UpperText(holes[j].0)
      ensures holes[i].1 == holes[j].1
    {
      assert holes[i] == front[i];
      if j == |front| {
        assert false;
      } else {
        assert holes[j] == front[j];
      }
    }
  }

  lemma TypesAddNew(table: seq<(string, ArgType)>, front: seq<(string, ArgType)>, h: (string, ArgType))
    requires TableOf(table, front)
    requires TypeOf(table, UpperText(h.0)).None?
    ensures HolesTyped(table + [(UpperText(h.0), h.1)], front + [h])
  {
    var holes := front + [h];
    forall i | 0 <= i < |holes|
      ensures TypeOf(table + [(UpperText(h.0), h.1)], UpperText(holes[i].0)) == Some(holes[i].1)
    {
      TypeOfAppend(table, UpperText(h.0), h.1, UpperText(holes[i].0));
      if i < |front| {
        assert holes[i] == front[i];
      }
    }
  }

  lemma EntriesAddNew(table: seq<(string, ArgType)>, front: seq<(string, ArgType)>, h: (string, ArgType))
    requires TableOf(table, front)
    ensures EntriesFromHoles(table + [(UpperText(h.0), h.1)], front + [h])
  {
    var holes := front + [h];
    var table' := table + [(UpperText(h.0), h.1)];
    forall k | 0 <= k < |table'|
      ensures EntryOfHole(table'[k], holes)
    {
      if k < |table| {
        assert EntryOfHole(table[k], front);
        var i :| 0 <= i < |front| && table[k] == (UpperText(front[i].0), front[i].1);
        assert holes[i] == front[i];
        assert table'[k] == table[k];
      } else {
        assert holes[|front|] == h;
        assert table'[k] == (UpperText(holes[|front|].0), holes[|front|].1);
      }
    }
  }

  lemma DistinctAddNew(table: seq<(string, ArgType)>, h: (string, ArgType))
    requires DistinctNames(table)
    requires TypeOf(table, UpperText(h.0)).None?
    ensures DistinctNames(table + [(UpperText(h.0), h.1)])
  {
    var table' := table + [(UpperText(h.0), h.1)];
    forall i, j | 0 <= i < j < |table'|
      ensures table'[i].0 != table'[j].0
    {
      if j == |table| {
        TypeOfAt(table, i);
      }
    }
  }

  /** A hole with a known name and the same type leaves the table as it is. */
  lemma TableOfAddKnown(table: seq<(string, ArgType)>, front: seq<(string, ArgType)>, h: (string, ArgType))
    requires TableOf(table, front) && TypesAgree(front)
    requires TypeOf(table, UpperText(h.0)) == Some(h.1)
    ensures TableOf(table, front + [h])
    ensures TypesAgree(front + [h])
  {
    var holes := front + [h];
    var n := |front|;
    forall i, j | 0 <= i < j < |holes| && UpperText(holes[i].0) == UpperText(holes[j].0)
      ensures holes[i].1 == holes[j].1
    {
      assert holes[i] == front[i];
      if j < n {
        assert holes[j] == front[j];
      } else {
        assert TypeOf(table, UpperText(front[i].0)) == Some(front[i].1);
      }
    }
    forall i | 0 <= i < |holes|
      ensures TypeOf(table, UpperText(holes[i].0)) == Some(holes[i].1)
    {
      if i < n {
        assert holes[i] == front[i];
      }
    }
    forall k | 0 <= k < |table|
      ensures EntryOfHole(table[k], holes)
    {
      assert EntryOfHole(table[k], front);
      var i :| 0 <= i < |front| && table[k] == (UpperText(front[i].0), front[i].1);
      assert holes[i] == front[i];
    }
  }

  /** A hole with a known name and another type breaks the agreement. */
  lemma TableOfClash(table: seq<(string, ArgType)>, front: seq<(string, ArgType)>, h: (string, ArgType))
    requires TableOf(table, front)
    requires TypeOf(table, UpperText(h.0)).Some? && TypeOf(table, UpperText(h.0)) != Some(h.1)
    ensures !TypesAgree(front + [h])
  {
    var holes := front + [h];
    var name := UpperText(h.0);
    var k :| 0 <= k < |table| && table[k].0 == name;
    assert EntryOfHole(table[k], front);
    var i :| 0 <= i < |front| && table[k] == (UpperText(front[i].0), front[i].1);
    TypeOfAt(table, k);
    assert holes[i] == front[i] && holes[|front|] == h;
  }

  /** The construction check on the usage line: it succeeds exactly when the
      holes agree on types, and then builds the table of their names. */
  lemma {:induction false} ArgTableCorrect(holes: seq<(string, ArgType)>)
    ensures ArgTable(holes).Success? <==> TypesAgree(holes)
    ensures ArgTable(holes).Success? ==> TableOf(ArgTable(holes).value, holes)
    decreases |holes|
  {
    if |holes| > 0 {
      var n := |holes| - 1;
      var front := holes[..n];
      var h := holes[n];
      assert holes == front + [h];
      ArgTableCorrect(front);
      if TypesAgree(holes) {
        forall i, j | 0 <= i < j < |front| && UpperText(front[i].0) == UpperText(front[j].0)
          ensures front[i].1 == front[j].1
        {
          assert front[i] == holes[i] && front[j] == holes[j];
        }
      }
      if ArgTable(front).Success? {
        var table := ArgTable(front).value;
        match TypeOf(table, UpperText(h.0))
        case None =>
          TableOfAddNew(table, front, h);
        case Some(t') =>
          if t' == h.1 {
            TableOfAddKnown(table, front, h);
          } else {
            TableOfClash(table, front, h);
          }
      }
    }
  }

  // ---------------------------------------------------------------------
  // The REPEAT balance check made at construction

  /** A line the construction check counts as opening a block. */
  predicate OpensLoosely(l: BodyLine) {
    l.RepeatLine? || (l.TextLine? && l.looseRepeat)
  }

  /** Opening lines minus `END REPEAT` lines. */
  function Depth(b: seq<BodyLine>): int
    decreases |b|
  {
    if |b| == 0 then 0
    else Depth(b[..|b| - 1]) + (if OpensLoosely(b[|b| - 1]) then 1 else if b[|b| - 1].EndRepeatLine? then -1 else 0)
  }

  /** The check as the source runs it: a counter over the lines, starting at
      `open`. */
  function CheckRepeats(b: seq<BodyLine>, open: nat): Result<()>
    decreases |b|
  {
    if |b| == 0 then
      if open > 0 then Failure("No 'END REPEAT' for matching 'REPEAT'!") else Success(())
    else if OpensLoosely(b[0]) then CheckRepeats(b[1..], open + 1)
    else if b[0].EndRepeatLine? then
      if open == 0 then Failure("No 'REPEAT' for matching 'END REPEAT'!") else CheckRepeats(b[1..], open - 1)
    else CheckRepeats(b[1..], open)
  }

  /** Every `END REPEAT` closes an earlier opening line and every opening
      line is closed. */
  predicate Balanced(b: seq<BodyLine>, open: nat) {
    (forall k :: 0 <= k <= |b| ==> open + Depth(b[..k]) >= 0) && open + Depth(b) == 0
  }

  lemma DepthCons(l: BodyLine, b: seq<BodyLine>)
    ensures Depth([l] + b) == Depth([l]) + Depth(b)
    decreases |b|
  {
    if |b| > 0 {
      assert ([l] + b)[..|[l] + b| - 1] == [l] + b[..|b| - 1];
      DepthCons(l, b[..|b| - 1]);
    }
  }

  /** The counter check accepts exactly the balanced bodies. */
  lemma {:induction false} CheckRepeatsBalanced(b: seq<BodyLine>, open: nat)
    ensures CheckRepeats(b, open).Success? <==> Balanced(b, open)
    decreases |b|
  {
    if |b| > 0 {
      var step := Depth([b[0]]);
      assert Depth([b[0]]) == Depth([b[0]][..0]) + step;
      forall k | 1 <= k <= |b|
        ensures Depth(b[..k]) == step + Depth(b[1..][..k - 1])
      {
        assert b[..k] == [b[0]] + b[1..][..k - 1];
        DepthCons(b[0], b[1..][..k - 1]);
      }
      assert b[..|b|] == b;
      assert b[..0] == [];
      if OpensLoosely(b[0]) || !b[0].EndRepeatLine? || open > 0 {
        var open' := open + step;
        CheckRepeatsBalanced(b[1..], open');
        assert Balanced(b, open) <==> Balanced(b[1..], open') by {
          if Balanced(b[1..], open') {
            forall k | 0 <= k <= |b|
              ensures open + Depth(b[..k]) >= 0
            {
              if k > 0 {
                assert open + Depth(b[..k]) == open' + Depth(b[1..][..k - 1]);
              }
            }
          }
          if Balanced(b, open) {
            forall k | 0 <= k <= |b[1..]|
              ensures open' + Depth(b[1..][..k]) >= 0
            {
              assert open + Depth(b[..k + 1]) >= 0;
            }
          }
        }
      } else {
        assert open + Depth(b[..1]) < 0;
      }
    }
  }

  /** `SyntacticSugar.__init__`: the argument table, then the REPEAT check. */
  function MakeSugar(title: string, holes: seq<(string, ArgType)>, body: seq<BodyLine>,
                     sugars: seq<Sugar>, matcher: string -> Option<map<string, string>>): (r: Result<Sugar>)
  {
    var table :- ArgTable(holes);
    if CheckRepeats(body, 0).Failure? then Failure(CheckRepeats(body, 0).error)
    else Success(Sugar(title, table, body, sugars, matcher))
  }

  /** A sugar is built exactly when its holes agree on types and its body is
      balanced; it keeps the title, body, sugars and matcher it was given. */
  lemma MakeSugarCorrect(title: string, holes: seq<(string, ArgType)>, body: seq<BodyLine>,
                         sugars: seq<Sugar>, matcher: string -> Option<map<string, string>>)
    ensures MakeSugar(title, holes, body, sugars, matcher).Success? <==> TypesAgree(holes) && Balanced(body, 0)
    ensures MakeSugar(title, holes, body, sugars, matcher).Success? ==>
            var s := MakeSugar(title, holes, body, sugars, matcher).value;
            TableOf(s.args, holes) && s.title == title && s.body == body && s.sugars == sugars
  {
    ArgTableCorrect(holes);
    CheckRepeatsBalanced(body, 0);
  }

  // ---------------------------------------------------------------------
  // The block structure the generation loop follows

  /** A body as the generation loop walks it: plain lines, and blocks opened
      by `{REPEAT name}`. A block is `closed` when its `{END REPEAT}` exists;
      an unclosed block runs to the end of the body. */
  datatype Item =
    | Line(pieces: seq<Piece>, looseRepeat: bool)
    | Block(name: string, items: seq<Item>, closed: bool)

  /** The items from line `i` on, up to the `END REPEAT` that closes the
      enclosing block (when `inner`) or to the end of the body; the index
      after them and whether an `END REPEAT` ended them. An `END REPEAT`
      with no block open is an error: the source pops an empty stack. */
  function Nest(body: seq<BodyLine>, i: nat, inner: bool): (r: Result<(seq<Item>, nat, bool)>)
    requires i <= |body|
    ensures r.Success? ==> i <= r.value.1 <= |body|
    ensures r.Success? && !r.value.2 ==> r.value.1 == |body|
    ensures r.Success? && r.value.2 ==> inner
    decreases |body| - i
  {
    if i == |body| then Success(([], i, false))
    else
      match body[i]
      case EndRepeatLine =>
        if inner then Success(([], i + 1, true)) else Failure("No open 'REPEAT' for 'END REPEAT'")
      case TextLine(p, loose) =>
        var rest :- Nest(body, i + 1, inner);
        Success(([Line(p, loose)] + rest.0, rest.1, rest.2))
      case RepeatLine(n) =>
        var block :- Nest(body, i + 1, true);
        if !block.2 then Success(([Block(n, block.0, false)], block.1, false))
        else
          var rest :- Nest(body, block.1, inner);
          Success(([Block(n, block.0, true)] + rest.0, rest.1, rest.2))
  }

  /** The body lines a list of items stands for. */
  function Unnest(items: seq<Item>): seq<BodyLine>
    decreases items
  {
    if |items| == 0 then [] else UnnestItem(items[0]) + Unnest(items[1..])
  }

  function UnnestItem(item: Item): seq<BodyLine>
    decreases item
  {
    match item
    case Line(p, loose) => [TextLine(p, loose)]
    case Block(n, items, closed) => [RepeatLine(n)] + Unnest(items) + (if closed then [EndRepeatLine] else [])
  }

  lemma UnnestCons(item: Item, items: seq<Item>)
    ensures Unnest([item] + items) == UnnestItem(item) + Unnest(items)
  {
    assert ([item] + items)[1..] == items;
  }

  /** `items`, followed by the closing `END REPEAT` when `closed`, are the
      lines `body[i..j]`. */
  predicate ReadsBack(body: seq<BodyLine>, i: nat, r: (seq<Item>, nat, bool))
    requires i <= r.1 <= |body|
  {
    Unnest(r.0) + (if r.2 then [EndRepeatLine] else []) == body[i..r.1]
  }

  lemma ReadsBackText(body: seq<BodyLine>, i: nat, rest: (seq<Item>, nat, bool))
    requires i < |body| && body[i].TextLine?
    requires i + 1 <= rest.1 <= |body| && ReadsBack(body, i + 1, rest)
    ensures ReadsBack(body, i, ([Line(body[i].pieces, body[i].looseRepeat)] + rest.0, rest.1, rest.2))
  {
    UnnestCons(Line(body[i].pieces, body[i].looseRepeat), rest.0);
    assert body[i..rest.1] == [body[i]] + body[i + 1..rest.1];
  }

  lemma ReadsBackOpen(body: seq<BodyLine>, i: nat, block: (seq<Item>, nat, bool))
    requires i < |body| && body[i].RepeatLine?
    requires i + 1 <= block.1 <= |body| && ReadsBack(body, i + 1, block) && !block.2
    ensures ReadsBack(body, i, ([Block(body[i].name, block.0, false)], block.1, false))
  {
    UnnestCons(Block(body[i].name, block.0, false), []);
    assert body[i..block.1] == [body[i]] + body[i + 1..block.1];
  }

  lemma ReadsBackClosed(body: seq<BodyLine>, i: nat, block: (seq<Item>, nat, bool), rest: (seq<Item>, nat, bool))
    requires i < |body| && body[i].RepeatLine?
    requires i + 1 <= block.1 <= |body| && ReadsBack(body, i + 1, block) && block.2
    requires block.1 <= rest.1 <= |body| && ReadsBack(body, block.1, rest)
    ensures ReadsBack(body, i, ([Block(body[i].name, block.0, true)] + rest.0, rest.1, rest.2))
  {
    UnnestCons(Block(body[i].name, block.0, true), rest.0);
    assert body[i..block.1] == [body[i]] + body[i + 1..block.1];
    assert body[i..rest.1] == body[i..block.1] + body[block.1..rest.1];
  }

  /** The items `Nest` reads are the lines they came from, followed by the
      closing `END REPEAT` when there was one: no line is lost or moved. */
  lemma {:induction false} NestUnnest(body: seq<BodyLine>, i: nat, inner: bool)
    requires i <= |body|
    requires Nest(body, i, inner).Success?
    ensures ReadsBack(body, i, Nest(body, i, inner).value)
    decreases |body| - i
  {
    if i < |body| {
      match body[i]
      case EndRepeatLine =>
        assert body[i..i + 1] == [EndRepeatLine];
      case TextLine(p, loose) =>
        NestUnnest(body, i + 1, inner);
        ReadsBackText(body, i, Nest(body, i + 1, inner).value);
      case RepeatLine(n) =>
        NestUnnest(body, i + 1, true);
        var block := Nest(body, i + 1, true).value;
        if !block.2 {
          ReadsBackOpen(body, i, block);
        } else {
          NestUnnest(body, block.1, inner);
          ReadsBackClosed(body, i, block, Nest(body, block.1, inner).value);
        }
    }
  }

  /** A body that `Nest` reads whole is the body its items stand for. */
  lemma NestWhole(body: seq<BodyLine>)
    requires Nest(body, 0, false).Success?
    ensures Unnest(Nest(body, 0, false).value.0) == body
  {
    NestUnnest(body, 0, false);
    assert body[0..|body|] == body;
    assert !Nest(body, 0, false).value.2;
  }

  // ---------------------------------------------------------------------
  // Arguments

  /** A compiled argument. */
  datatype Value = LabelValue(l: Label) | VariableValue(v: Variable) | ConstValue(n: nat)

  /** `Const.compile`: `int(...)` of a captured number. */
  function ConstOf(text: string): (r: Result<nat>)
    ensures r.Success? ==> |text| > 0 && (forall k :: 0 <= k < |text| ==> IsDigit(text[k])) && r.value == DigitsValue(text)
  {
    if |text| > 0 && forall k :: 0 <= k < |text| ==> IsDigit(text[k]) then
      DigitsValueBounds(text);
      Success(DigitsValue(text) as nat)
    else Failure("Failed to compile const")
  }

  /** `invocation_match.group(name)`: an error for a name that is no group. */
  function Capture(captures: map<string, string>, name: string): (r: Result<string>)
    ensures r.Success? <==> name in captures
    ensures r.Success? ==> r.value == captures[name]
  {
    if name in captures then Success(captures[name]) else Failure("no such group")
  }

  /** `compile` of the argument's type on its captured text. The legacy
      `Variable.compile` returns `None` on text outside the grammar, and then
      so does this. */
  function CompileArg(d: Dialect, t: ArgType, text: string): (r: Result<Option<Value>>)
    ensures r.Success? && r.value.Some? ==>
            match t
            case LabelArg => r.value.value.LabelValue? && ParseLabel(text) == Success(r.value.value.l)
            case VariableArg => r.value.value.VariableValue? && ParseVariable(d, text) == Success(Some(r.value.value.v))
            case ConstArg => r.value.value.ConstValue? && ConstOf(text) == Success(r.value.value.n)
  {
    match t
    case LabelArg =>
      var l :- ParseLabel(text);
      Success(Some(LabelValue(l)))
    case VariableArg =>
      var v :- ParseVariable(d, text);
      if v.None? then Success(None) else Success(Some(VariableValue(v.value)))
    case ConstArg =>
      var c :- ConstOf(text);
      Success(Some(ConstValue(c)))
  }

  /** The compiled arguments of an invocation, in table order. The packaged
      `parameters` compiles every argument; the legacy one only the labels
      and variables, and leaves out a `None`. */
  function Parameters(d: Dialect, args: seq<(string, ArgType)>, captures: map<string, string>): (r: Result<seq<Value>>)
    ensures r.Success? ==> |r.value| <= |args|
    ensures r.Success? && d == Legacy ==> forall k :: 0 <= k < |r.value| ==> !r.value[k].ConstValue?
    decreases |args|
  {
    if |args| == 0 then Success([])
    else
      var (name, t) := args[0];
      var rest :- Parameters(d, args[1..], captures);
      if d == Legacy && t == ConstArg then Success(rest)
      else
        var text :- Capture(captures, name);
        var v :- CompileArg(d, t, text);
        if v.None? then Success(rest) else Success([v.value] + rest)
  }

  /** The argument table entry `arg` can be compiled: the legacy copy
      skips constants, and otherwise the captured text must compile. */
  predicate Compiles(d: Dialect, arg: (string, ArgType), captures: map<string, string>) {
    (d == Legacy && arg.1 == ConstArg) || (arg.0 in captures && CompileArg(d, arg.1, captures[arg.0]).Success?)
  }

  /** The argument table entry `arg` compiles to `val`. */
  predicate CompilesTo(d: Dialect, arg: (string, ArgType), captures: map<string, string>, val: Value) {
    !(d == Legacy && arg.1 == ConstArg) && arg.0 in captures && CompileArg(d, arg.1, captures[arg.0]) == Success(Some(val))
  }

  /** `parameters` succeeds exactly when every entry of the table can be
      compiled, and then holds exactly what the entries compile to. */
  lemma {:induction false} ParametersCompiled(d: Dialect, args: seq<(string, ArgType)>, captures: map<string, string>)
    ensures Parameters(d, args, captures).Success? <==> forall k :: 0 <= k < |args| ==> Compiles(d, args[k], captures)
    ensures Parameters(d, args, captures).Success? ==>
              forall val :: val in Parameters(d, args, captures).value <==>
                exists k :: 0 <= k < |args| && CompilesTo(d, args[k], captures, val)
    decreases |args|
  {
    if |args| > 0 {
      ParametersCompiled(d, args[1..], captures);
      assert forall k :: 1 <= k < |args| ==> args[k] == args[1..][k - 1];
      var r := Parameters(d, args, captures);
      if r.Success? {
        var rest := Parameters(d, args[1..], captures).value;
        forall val
          ensures val in r.value <==> exists k :: 0 <= k < |args| && CompilesTo(d, args[k], captures, val)
        {
          if val in r.value && val !in rest {
            assert CompilesTo(d, args[0], captures, val);
          }
          if exists k :: 0 <= k < |args| && CompilesTo(d, args[k], captures, val) {
            var k :| 0 <= k < |args| && CompilesTo(d, args[k], captures, val);
            if k > 0 {
              assert CompilesTo(d, args[1..][k - 1], captures, val);
            }
          }
        }
      }
    }
  }

  /** The labels and the variables among compiled arguments. */
  function ParameterLabels(vs: seq<Value>): (r: seq<Label>)
    ensures forall l :: l in r <==> LabelValue(l) in vs
  {
    if |vs| == 0 then []
    else (if vs[0].LabelValue? then [vs[0].l] else []) + ParameterLabels(vs[1..])
  }

  function ParameterVariables(vs: seq<Value>): (r: seq<Variable>)
    ensures forall v :: v in r <==> VariableValue(v) in vs
  {
    if |vs| == 0 then []
    else (if vs[0].VariableValue? then [vs[0].v] else []) + ParameterVariables(vs[1..])
  }

  /** The first occurrences of each element, in order: a Python set of
      compiled arguments, iterated in table order. */
  function Dedupe(s: seq<Value>): (r: seq<Value>)
    ensures forall x :: x in r <==> x in s
    ensures forall i, j :: 0 <= i < j < |r| ==> r[i] != r[j]
    decreases |s|
  {
    if |s| == 0 then []
    else
      var front := Dedupe(s[..|s| - 1]);
      assert forall x :: x in s <==> x in s[..|s| - 1] || x == s[|s| - 1];
      if s[|s| - 1] in front then front else front + [s[|s| - 1]]
  }

  /** The labels the label arguments of an invocation compile to. */
  function ArgLabels(args: seq<(string, ArgType)>, captures: map<string, string>): (r: seq<Label>)
    decreases |args|
  {
    if |args| == 0 then []
    else
      var (name, t) := args[0];
      (if t == LabelArg && name in captures && ParseLabel(captures[name]).Success?
       then [ParseLabel(captures[name]).value] else []) + ArgLabels(args[1..], captures)
  }

  /** The variables the variable arguments of an invocation compile to. */
  function ArgVariables(d: Dialect, args: seq<(string, ArgType)>, captures: map<string, string>): (r: seq<Variable>)
    decreases |args|
  {
    if |args| == 0 then []
    else
      var (name, t) := args[0];
      (if t == VariableArg && name in captures && ParseVariable(d, captures[name]).Success? &&
          ParseVariable(d, captures[name]).value.Some?
       then [ParseVariable(d, captures[name]).value.value] else []) + ArgVariables(d, args[1..], captures)
  }

  /** The compiled arguments are what the label and variable arguments
      compile to. */
  lemma {:induction false} ParametersInArgs(d: Dialect, args: seq<(string, ArgType)>, captures: map<string, string>)
    requires Parameters(d, args, captures).Success?
    ensures forall l :: LabelValue(l) in Parameters(d, args, captures).value ==> l in ArgLabels(args, captures)
    ensures forall v :: VariableValue(v) in Parameters(d, args, captures).value ==> v in ArgVariables(d, args, captures)
    decreases |args|
  {
    if |args| > 0 {
      ParametersInArgs(d, args[1..], captures);
    }
  }

  // ---------------------------------------------------------------------
  // Name generation and renaming: `_VariableGenerator`, `_LabelGenerator`
  // and `_ProgramFixer`

  /** The index shield names start above: `max_sugar_internals`. */
  const SugarInternals: int := 1000000000000000

  /** The state of a renaming: the next unused variable and label indices,
      the renaming itself, and the text that replaces each shielded
      argument. */
  datatype Fixer = Fixer(
    nextVariable: int,
    nextLabel: int,
    variableFixes: map<Variable, Variable>,
    labelFixes: map<Label, Label>,
    replacements: map<string, string>)

  /** The largest of a set of used indices, or 0 when there is none. */
  function MaxIndex(used: seq<int>): (m: int)
    ensures forall k :: 0 <= k < |used| ==> used[k] <= m
    ensures |used| == 0 ==> m == 0
    ensures |used| > 0 ==> exists k :: 0 <= k < |used| && used[k] == m
  {
    if |used| == 0 then 0
    else if |used| == 1 || used[0] >= MaxIndex(used[1..]) then used[0]
    else MaxIndex(used[1..])
  }

  function VariableIndices(used: seq<Variable>): (r: seq<int>)
    ensures |r| == |used| && forall k :: 0 <= k < |used| ==> r[k] == used[k].index
  {
    seq(|used|, k requires 0 <= k < |used| => used[k].index)
  }

  function LabelIndices(used: seq<Label>): (r: seq<int>)
    ensures |r| == |used| && forall k :: 0 <= k < |used| ==> r[k] == used[k].index
  {
    seq(|used|, k requires 0 <= k < |used| => used[k].index)
  }

  /** A renaming whose generators start one above the used indices. */
  function NewFixer(usedVariables: seq<Variable>, usedLabels: seq<Label>): (fx: Fixer)
    ensures forall v :: v in usedVariables ==> v.index < fx.nextVariable
    ensures forall l :: l in usedLabels ==> l.index < fx.nextLabel
    ensures fx.variableFixes == map[] && fx.labelFixes == map[] && fx.replacements == map[]
  {
    Fixer(MaxIndex(VariableIndices(usedVariables)) + 1, MaxIndex(LabelIndices(usedLabels)) + 1, map[], map[], map[])
  }

  /** `generate(start)`: `Z` with index `start` plus the next unused index. */
  function GenerateVariable(fx: Fixer, start: int): (r: (Variable, Fixer))
    ensures r.0 == Variable(Z, start + fx.nextVariable)
    ensures r.1 == fx.(nextVariable := fx.nextVariable + 1)
  {
    (Variable(Z, start + fx.nextVariable), fx.(nextVariable := fx.nextVariable + 1))
  }

  function GenerateLabel(fx: Fixer, start: int): (r: (Label, Fixer))
    ensures r.0 == Label(A, start + fx.nextLabel)
    ensures r.1 == fx.(nextLabel := fx.nextLabel + 1)
  {
    (Label(A, start + fx.nextLabel), fx.(nextLabel := fx.nextLabel + 1))
  }

  /** Every shield renames a `Z` or `A` placeholder back to one of the given
      arguments. */
  predicate ShieldTargets(fx: Fixer, labels: seq<Label>, variables: seq<Variable>) {
    (forall l :: l in fx.labelFixes ==> fx.labelFixes[l] in labels) &&
    (forall v :: v in fx.variableFixes ==> v.name == Z && fx.variableFixes[v] in variables)
  }

  /** A new shield label, stored under `key` and renamed back to `l`. */
  function ShieldLabel(fx: Fixer, key: string, l: Label): (r: Fixer)
    ensures r.nextLabel == fx.nextLabel + 1 && r.nextVariable == fx.nextVariable
    ensures key in r.replacements
    ensures forall k :: k in fx.replacements ==> k in r.replacements
    ensures forall labels: seq<Label>, variables: seq<Variable> ::
              ShieldTargets(fx, labels, variables) && l in labels ==> ShieldTargets(r, labels, variables)
  {
    var (g, fx1) := GenerateLabel(fx, SugarInternals);
    fx1.(replacements := fx1.replacements[key := ShowLabel(g)], labelFixes := fx1.labelFixes[g := l])
  }

  /** A new shield variable, stored under `key` and renamed back to `v`. */
  function ShieldVariable(fx: Fixer, key: string, v: Variable): (r: Fixer)
    ensures r.nextVariable == fx.nextVariable + 1 && r.nextLabel == fx.nextLabel
    ensures key in r.replacements
    ensures forall k :: k in fx.replacements ==> k in r.replacements
    ensures forall labels: seq<Label>, variables: seq<Variable> ::
              ShieldTargets(fx, labels, variables) && v in variables ==> ShieldTargets(r, labels, variables)
  {
    var (g, fx1) := GenerateVariable(fx, SugarInternals);
    fx1.(replacements := fx1.replacements[key := ShowVariable(g)], variableFixes := fx1.variableFixes[g := v])
  }

  /** The packaged `process_parameter_fixes`: each label and variable
      argument gets a shield name far above the used ones; its printed form
      is replaced by the shield's, and the shield is renamed back to it. */
  function ShieldParameters(params: seq<Value>, fx: Fixer): (r: Fixer)
    ensures r.nextVariable >= fx.nextVariable && r.nextLabel >= fx.nextLabel
    ensures forall labels: seq<Label>, variables: seq<Variable> ::
              ShieldTargets(fx, labels, variables) &&
              (forall l :: LabelValue(l) in params ==> l in labels) &&
              (forall v :: VariableValue(v) in params ==> v in variables) ==>
              ShieldTargets(r, labels, variables)
    decreases |params|
  {
    if |params| == 0 then fx
    else
      match params[0]
      case LabelValue(l) => ShieldParameters(params[1..], ShieldLabel(fx, ShowLabel(l), l))
      case VariableValue(v) => ShieldParameters(params[1..], ShieldVariable(fx, ShowVariable(v), v))
      case ConstValue(_) => ShieldParameters(params[1..], fx)
  }

  /** The legacy shield step, run for every emitted line: each label and
      variable argument whose captured text has no shield yet gets one, keyed
      by that text. */
  function LegacyShields(args: seq<(string, ArgType)>, captures: map<string, string>, fx: Fixer,
                         ghost labels: seq<Label>, ghost variables: seq<Variable>): (r: Result<Fixer>)
    ensures r.Success? ==> r.value.nextVariable >= fx.nextVariable && r.value.nextLabel >= fx.nextLabel
    ensures r.Success? && ShieldTargets(fx, labels, variables) &&
            (forall l :: l in ArgLabels(args, captures) ==> l in labels) &&
            (forall v :: v in ArgVariables(Legacy, args, captures) ==> v in variables) ==>
            ShieldTargets(r.value, labels, variables)
    decreases |args|
  {
    if |args| == 0 then Success(fx)
    else
      var (name, t) := args[0];
      var text :- Capture(captures, name);
      if t == ConstArg || text in fx.replacements then LegacyShields(args[1..], captures, fx, labels, variables)
      else if t == LabelArg then
        var l :- ParseLabel(text);
        LegacyShields(args[1..], captures, ShieldLabel(fx, text, l), labels, variables)
      else
        var v :- ParseVariable(Legacy, text);
        if v.None? then Failure("Failed to compile variable")
        else LegacyShields(args[1..], captures, ShieldVariable(fx, text, v.value), labels, variables)
  }

  /** The text a shield is stored under for a captured argument: the
      printed form of the compiled argument. */
  function ShieldKey(t: ArgType, text: string): string {
    match t
    case VariableArg =>
      (match ParseVariable(Packaged, text)
       case Success(Some(v)) => ShowVariable(v)
       case _ => text)
    case LabelArg =>
      (match ParseLabel(text)
       case Success(l) => ShowLabel(l)
       case _ => text)
    case ConstArg => text
  }

  /** `parameter_replacement` of the packaged copy as written: the captured
      text itself is looked up, although shields are stored under printed
      forms. */
  function LookupAsWritten(replacements: map<string, string>, text: string): (r: string)
    ensures text in replacements ==> r == replacements[text]
    ensures text !in replacements ==> r == text
  {
    if text in replacements then replacements[text] else text
  }

  /** How a sugar is expanded: as the source writes it, or with two slips
      repaired. Repaired, the lines inside a block bound to 0 stay off
      however the blocks inside it are bound, and the packaged copy looks
      a captured argument up by the printed form its shield is stored
      under. */
  datatype Expansion = AsWritten | Repaired

  /** The replacement of a captured argument in a body line. As written,
      both copies look up the captured text; the legacy copy also stores
      its shields under the captured text, the packaged copy under the
      printed form, which only the repaired lookup uses. */
  function Lookup(d: Dialect, e: Expansion, t: ArgType, text: string, replacements: map<string, string>): (r: string)
    ensures e == AsWritten || d != Packaged ==> r == LookupAsWritten(replacements, text)
    ensures e == Repaired && d == Packaged && ShieldKey(t, text) in replacements ==>
              r == replacements[ShieldKey(t, text)]
  {
    var key := if d == Packaged && e == Repaired then ShieldKey(t, text) else text;
    if key in replacements then replacements[key] else text
  }

  /** A body line with each argument hole replaced; a hole that names no
      argument stays as written. */
  function Render(d: Dialect, e: Expansion, args: seq<(string, ArgType)>, pieces: seq<Piece>,
                  captures: map<string, string>, replacements: map<string, string>): (r: Result<string>)
    decreases |pieces|
  {
    if |pieces| == 0 then Success([])
    else
      var first :- RenderPiece(d, e, args, pieces[0], captures, replacements);
      var rest :- Render(d, e, args, pieces[1..], captures, replacements);
      Success(first + rest)
  }

  /** One piece of a body line: literal text as it is, an argument hole
      replaced, any other hole as written. */
  function RenderPiece(d: Dialect, e: Expansion, args: seq<(string, ArgType)>, p: Piece,
                       captures: map<string, string>, replacements: map<string, string>): (r: Result<string>)
    ensures r.Failure? <==> IsArgumentHole(args, p) && UpperText(p.name) !in captures
    ensures !IsArgumentHole(args, p) ==> r == Success(PieceText(p))
  {
    match p
    case Lit(text) => Success(text)
    case Hole(name, raw) =>
      match TypeOf(args, UpperText(name))
      case None => Success(raw)
      case Some(t) =>
        var text :- Capture(captures, UpperText(name));
        Success(Lookup(d, e, t, text, replacements))
  }

  /** A body line as written: literal text and holes in their raw form. */
  function Written(pieces: seq<Piece>): string
    decreases |pieces|
  {
    if |pieces| == 0 then [] else PieceText(pieces[0]) + Written(pieces[1..])
  }

  function PieceText(p: Piece): string {
    match p
    case Lit(t) => t
    case Hole(_, raw) => raw
  }

  /** A hole that names an argument of the table. */
  predicate IsArgumentHole(args: seq<(string, ArgType)>, p: Piece) {
    p.Hole? && TypeOf(args, UpperText(p.name)).Some?
  }

  /** Rendering fails exactly when an argument hole has no captured text,
      and a line without argument holes comes out as written. */
  lemma RenderOutcome(d: Dialect, e: Expansion, args: seq<(string, ArgType)>, pieces: seq<Piece>,
                      captures: map<string, string>, replacements: map<string, string>)
    ensures Render(d, e, args, pieces, captures, replacements).Failure? <==>
            exists k :: 0 <= k < |pieces| && IsArgumentHole(args, pieces[k]) && UpperText(pieces[k].name) !in captures
    ensures (forall k :: 0 <= k < |pieces| ==> !IsArgumentHole(args, pieces[k])) ==>
            Render(d, e, args, pieces, captures, replacements) == Success(Written(pieces))
  {
    RenderFailure(d, e, args, pieces, captures, replacements);
    if forall k :: 0 <= k < |pieces| ==> !IsArgumentHole(args, pieces[k]) {
      RenderPlain(d, e, args, pieces, captures, replacements);
    }
  }

  lemma {:induction false} RenderFailure(d: Dialect, e: Expansion, args: seq<(string, ArgType)>, pieces: seq<Piece>,
                                         captures: map<string, string>, replacements: map<string, string>)
    ensures Render(d, e, args, pieces, captures, replacements).Failure? <==>
            exists k :: 0 <= k < |pieces| && IsArgumentHole(args, pieces[k]) && UpperText(pieces[k].name) !in captures
    decreases |pieces|
  {
    if |pieces| > 0 {
      var rest := pieces[1..];
      RenderFailure(d, e, args, rest, captures, replacements);
      if k :| 0 <= k < |pieces| && IsArgumentHole(args, pieces[k]) && UpperText(pieces[k].name) !in captures {
        if k > 0 {
          assert rest[k - 1] == pieces[k];
        }
      }
      if k :| 0 <= k < |rest| && IsArgumentHole(args, rest[k]) && UpperText(rest[k].name) !in captures {
        assert pieces[k + 1] == rest[k];
      }
    }
  }

  lemma {:induction false} RenderPlain(d: Dialect, e: Expansion, args: seq<(string, ArgType)>, pieces: seq<Piece>,
                                       captures: map<string, string>, replacements: map<string, string>)
    requires forall k :: 0 <= k < |pieces| ==> !IsArgumentHole(args, pieces[k])
    ensures Render(d, e, args, pieces, captures, replacements) == Success(Written(pieces))
    decreases |pieces|
  {
    if |pieces| > 0 {
      var rest := pieces[1..];
      assert forall k :: 0 <= k < |rest| ==> rest[k] == pieces[k + 1];
      RenderPlain(d, e, args, rest, captures, replacements);
      assert !IsArgumentHole(args, pieces[0]);
    }
  }

  /** Each piece is rendered on its own, so a line may be cut anywhere:
      rendering `a + b` renders `a`, then `b`. */
  lemma {:induction false} RenderAppend(d: Dialect, e: Expansion, args: seq<(string, ArgType)>, a: seq<Piece>, b: seq<Piece>,
                                        captures: map<string, string>, replacements: map<string, string>)
    ensures Render(d, e, args, a + b, captures, replacements) ==
            match Render(d, e, args, a, captures, replacements)
            case Failure(m) => Failure(m)
            case Success(x) =>
              match Render(d, e, args, b, captures, replacements)
              case Failure(m) => Failure(m)
              case Success(y) => Success(x + y)
    decreases |a|
  {
    if |a| == 0 {
      assert a + b == b;
      var rb := Render(d, e, args, b, captures, replacements);
      if rb.Success? {
        assert [] + rb.value == rb.value;
      }
    } else {
      assert (a + b)[0] == a[0] && (a + b)[1..] == a[1..] + b;
      RenderAppend(d, e, args, a[1..], b, captures, replacements);
      var ra, rb := Render(d, e, args, a, captures, replacements), Render(d, e, args, b, captures, replacements);
      var rt := Render(d, e, args, a[1..], captures, replacements);
      if ra.Success? && rb.Success? {
        assert ra.value == ra.value[..|ra.value| - |rt.value|] + rt.value;
        AppendAssoc(ra.value[..|ra.value| - |rt.value|], rt.value, rb.value);
      }
    }
  }

  /** The bound of a `REPEAT` block: the named group's text read by `int`. */
  function RepeatCount(name: string, captures: map<string, string>): (r: Result<nat>)
    ensures r.Success? ==> name in captures && ConstOf(captures[name]) == r
  {
    var text :- Capture(captures, name);
    ConstOf(text)
  }

  /** The lines a list of items emits, with the renaming state threaded
      through. A line is emitted when `enabled`. A block whose bound is `k`
      walks its items `k` times, once when `k` is 0 or when it is never
      closed. As written only the innermost bound counts: its lines are
      enabled when `k > 0`. Repaired, they are enabled when the enclosing
      lines are too. */
  function EmitItems(d: Dialect, args: seq<(string, ArgType)>, items: seq<Item>, enabled: bool, e: Expansion,
                     captures: map<string, string>, fx: Fixer): (r: Result<(seq<string>, Fixer)>)
    ensures r.Success? && d != Legacy ==> r.value.1 == fx
    ensures r.Success? ==> r.value.1.nextLabel >= fx.nextLabel && r.value.1.nextVariable >= fx.nextVariable
    ensures r.Success? && ShieldTargets(fx, ArgLabels(args, captures), ArgVariables(d, args, captures)) ==>
            ShieldTargets(r.value.1, ArgLabels(args, captures), ArgVariables(d, args, captures))
    decreases items, 1
  {
    if |items| == 0 then Success(([], fx))
    else
      var first :- EmitItem(d, args, items[0], enabled, e, captures, fx);
      var rest :- EmitItems(d, args, items[1..], enabled, e, captures, first.1);
      Success((first.0 + rest.0, rest.1))
  }

  function EmitItem(d: Dialect, args: seq<(string, ArgType)>, item: Item, enabled: bool, e: Expansion,
                    captures: map<string, string>, fx: Fixer): (r: Result<(seq<string>, Fixer)>)
    ensures r.Success? && d != Legacy ==> r.value.1 == fx
    ensures r.Success? ==> r.value.1.nextLabel >= fx.nextLabel && r.value.1.nextVariable >= fx.nextVariable
    ensures r.Success? && ShieldTargets(fx, ArgLabels(args, captures), ArgVariables(d, args, captures)) ==>
            ShieldTargets(r.value.1, ArgLabels(args, captures), ArgVariables(d, args, captures))
    decreases item, 2
  {
    match item
    case Line(pieces, _) =>
      if !enabled then Success(([], fx))
      else
        var fx1 :- if d == Legacy then LegacyShields(args, captures, fx, ArgLabels(args, captures), ArgVariables(d, args, captures))
                   else Success(fx);
        var text :- Render(d, e, args, pieces, captures, fx1.replacements);
        Success(([text], fx1))
    case Block(name, items, closed) =>
      var k :- RepeatCount(name, captures);
      var passes := if closed && k > 1 then k else 1;
      EmitPasses(d, args, items, if e == Repaired then enabled && k > 0 else k > 0, e, captures, fx, passes)
  }

  /** `passes` walks over the items of one block. */
  function EmitPasses(d: Dialect, args: seq<(string, ArgType)>, items: seq<Item>, enabled: bool, e: Expansion,
                      captures: map<string, string>, fx: Fixer, passes: nat): (r: Result<(seq<string>, Fixer)>)
    ensures r.Success? && d != Legacy ==> r.value.1 == fx
    ensures r.Success? ==> r.value.1.nextLabel >= fx.nextLabel && r.value.1.nextVariable >= fx.nextVariable
    ensures r.Success? && ShieldTargets(fx, ArgLabels(args, captures), ArgVariables(d, args, captures)) ==>
            ShieldTargets(r.value.1, ArgLabels(args, captures), ArgVariables(d, args, captures))
    decreases items, 2, passes
  {
    if passes == 0 then Success(([], fx))
    else
      var first :- EmitItems(d, args, items, enabled, e, captures, fx);
      var rest :- EmitPasses(d, args, items, enabled, e, captures, first.1, passes - 1);
      Success((first.0 + rest.0, rest.1))
  }

  // ---------------------------------------------------------------------
  // Renaming the compiled body: `process_program_fixes` and `fix_program`

  /** `generated` renames `l` unless `l` is already renamed. */
  function AddLabelFix(fx: Fixer, l: Label): (r: Fixer)
    ensures l in r.labelFixes
  {
    if l in fx.labelFixes then fx
    else
      var (g, fx1) := GenerateLabel(fx, 0);
      fx1.(labelFixes := fx1.labelFixes[l := g])
  }

  /** A fresh `Z` renames every variable other than `X` and `Y` not already
      renamed. */
  function AddVariableFix(fx: Fixer, v: Variable): (r: Fixer)
    ensures v.name == Z ==> v in r.variableFixes
  {
    if v.name == X || v.name == Y || v in fx.variableFixes then fx
    else
      var (g, fx1) := GenerateVariable(fx, 0);
      fx1.(variableFixes := fx1.variableFixes[v := g])
  }

  /** The renaming step for one instruction: its label, its jump target,
      its variable, in that order. */
  function AddInstructionFixes(fx: Fixer, i: Instruction): (r: Fixer) {
    var fx1 := if i.lineLabel.Some? then AddLabelFix(fx, i.lineLabel.value) else fx;
    var fx2 := if i.sentence.Jump? then AddLabelFix(fx1, i.sentence.target) else fx1;
    AddVariableFix(fx2, i.sentence.variable)
  }

  /** `process_program_fixes`: the instructions in order. */
  function ProcessProgramFixes(p: Program, fx: Fixer): (r: Fixer)
    decreases |p|
  {
    if |p| == 0 then fx else ProcessProgramFixes(p[1..], AddInstructionFixes(fx, p[0]))
  }

  function FixLabel(fx: Fixer, l: Label): Label {
    if l in fx.labelFixes then fx.labelFixes[l] else l
  }

  function FixVariable(fx: Fixer, v: Variable): Variable {
    if v in fx.variableFixes then fx.variableFixes[v] else v
  }

  function FixInstruction(fx: Fixer, i: Instruction): Instruction {
    var lbl := if i.lineLabel.Some? then Some(FixLabel(fx, i.lineLabel.value)) else None;
    match i.sentence
    case Jump(v, t) => Instruction(lbl, Jump(FixVariable(fx, v), FixLabel(fx, t)))
    case SetOp(v, op) => Instruction(lbl, SetOp(FixVariable(fx, v), op))
  }

  /** `fix_program`: every label and variable renamed as the fixer says. */
  function FixProgram(p: Program, fx: Fixer): (r: Program)
    ensures |r| == |p|
    ensures forall k :: 0 <= k < |p| ==> r[k] == FixInstruction(fx, p[k])
  {
    seq(|p|, k requires 0 <= k < |p| => FixInstruction(fx, p[k]))
  }

  /** Two instructions agree but for names: both labelled or both not, both
      jumps or both set-operations with the same operation. */
  predicate SameShape(i: Instruction, j: Instruction) {
    i.lineLabel.Some? == j.lineLabel.Some? &&
    i.sentence.Jump? == j.sentence.Jump? &&
    (i.sentence.SetOp? ==> j.sentence.SetOp? && i.sentence.op == j.sentence.op)
  }

  /** Renaming keeps the number, order and kind of instructions and every
      `X` and `Y` variable, as long as no `X` or `Y` is ever renamed. */
  lemma FixProgramShape(p: Program, fx: Fixer)
    requires forall v :: v in fx.variableFixes ==> v.name == Z
    ensures |FixProgram(p, fx)| == |p|
    ensures forall k :: 0 <= k < |p| ==> SameShape(FixProgram(p, fx)[k], p[k])
    ensures forall k :: 0 <= k < |p| && p[k].sentence.variable.name != Z ==>
              FixProgram(p, fx)[k].sentence.variable == p[k].sentence.variable
  {
  }

  /** How a renaming grows from `a` to `b`: the generators only move up,
      earlier entries stay, only `Z` variables are renamed, and every new
      entry renames to a distinct name drawn from the generator in between. */
  predicate FixesExtend(a: Fixer, b: Fixer) {
    a.nextLabel <= b.nextLabel && a.nextVariable <= b.nextVariable &&
    (forall l :: l in a.labelFixes ==> l in b.labelFixes && b.labelFixes[l] == a.labelFixes[l]) &&
    (forall v :: v in a.variableFixes ==> v in b.variableFixes && b.variableFixes[v] == a.variableFixes[v]) &&
    (forall l :: l in b.labelFixes && l !in a.labelFixes ==>
       b.labelFixes[l].name == A && a.nextLabel <= b.labelFixes[l].index < b.nextLabel) &&
    (forall v :: v in b.variableFixes && v !in a.variableFixes ==>
       v.name == Z && b.variableFixes[v].name == Z && a.nextVariable <= b.variableFixes[v].index < b.nextVariable) &&
    (forall l, l' :: l in b.labelFixes && l' in b.labelFixes && l !in a.labelFixes && l' !in a.labelFixes && l != l' ==>
       b.labelFixes[l] != b.labelFixes[l']) &&
    (forall v, v' :: v in b.variableFixes && v' in b.variableFixes && v !in a.variableFixes && v' !in a.variableFixes && v != v' ==>
       b.variableFixes[v] != b.variableFixes[v'])
  }

  lemma FixesExtendRefl(a: Fixer)
    ensures FixesExtend(a, a)
  {
  }

  lemma FixesExtendTrans(a: Fixer, b: Fixer, c: Fixer)
    requires FixesExtend(a, b) && FixesExtend(b, c)
    ensures FixesExtend(a, c)
  {
    forall l, l' | l in c.labelFixes && l' in c.labelFixes && l !in a.labelFixes && l' !in a.labelFixes && l != l'
      ensures c.labelFixes[l] != c.labelFixes[l']
    {
      if l in b.labelFixes && l' !in b.labelFixes {
        assert c.labelFixes[l].index < b.nextLabel <= c.labelFixes[l'].index;
      } else if l !in b.labelFixes && l' in b.labelFixes {
        assert c.labelFixes[l'].index < b.nextLabel <= c.labelFixes[l].index;
      }
    }
    forall v, v' | v in c.variableFixes && v' in c.variableFixes && v !in a.variableFixes && v' !in a.variableFixes && v != v'
      ensures c.variableFixes[v] != c.variableFixes[v']
    {
      if v in b.variableFixes && v' !in b.variableFixes {
        assert c.variableFixes[v].index < b.nextVariable <= c.variableFixes[v'].index;
      } else if v !in b.variableFixes && v' in b.variableFixes {
        assert c.variableFixes[v'].index < b.nextVariable <= c.variableFixes[v].index;
      }
    }
  }

  lemma AddLabelFixExtends(fx: Fixer, l: Label)
    ensures FixesExtend(fx, AddLabelFix(fx, l))
  {
  }

  lemma AddVariableFixExtends(fx: Fixer, v: Variable)
    ensures FixesExtend(fx, AddVariableFix(fx, v))
  {
  }

  /** The renaming step of one instruction extends the renaming and covers
      the instruction's labels and its `Z` variable. */
  lemma AddInstructionFixesCorrect(fx: Fixer, i: Instruction)
    ensures FixesExtend(fx, AddInstructionFixes(fx, i))
    ensures forall l :: l in InstructionLabels(i) ==> l in AddInstructionFixes(fx, i).labelFixes
    ensures i.sentence.variable.name == Z ==> i.sentence.variable in AddInstructionFixes(fx, i).variableFixes
  {
    var fx1 := if i.lineLabel.Some? then AddLabelFix(fx, i.lineLabel.value) else fx;
    var fx2 := if i.sentence.Jump? then AddLabelFix(fx1, i.sentence.target) else fx1;
    var fx3 := AddVariableFix(fx2, i.sentence.variable);
    assert fx3 == AddInstructionFixes(fx, i);
    assert FixesExtend(fx, fx2) by {
      if i.lineLabel.Some? { AddLabelFixExtends(fx, i.lineLabel.value); } else { FixesExtendRefl(fx); }
      if i.sentence.Jump? { AddLabelFixExtends(fx1, i.sentence.target); } else { FixesExtendRefl(fx1); }
      FixesExtendTrans(fx, fx1, fx2);
    }
    assert FixesExtend(fx, fx3) by {
      AddVariableFixExtends(fx2, i.sentence.variable);
      FixesExtendTrans(fx, fx2, fx3);
    }
    forall l | l in InstructionLabels(i)
      ensures l in fx3.labelFixes
    {
      assert l in fx2.labelFixes by {
        if i.lineLabel.Some? && l == i.lineLabel.value {
          assert l in fx1.labelFixes;
        }
      }
    }
  }

  /** `process_program_fixes` only adds fresh, distinct renamings, and
      afterwards every label of the program and every `Z` variable is
      renamed. */
  lemma {:induction false} ProcessProgramFixesCorrect(p: Program, fx: Fixer)
    ensures FixesExtend(fx, ProcessProgramFixes(p, fx))
    ensures forall l :: l in ProgramLabels(p) ==> l in ProcessProgramFixes(p, fx).labelFixes
    ensures forall k :: 0 <= k < |p| && p[k].sentence.variable.name == Z ==>
              p[k].sentence.variable in ProcessProgramFixes(p, fx).variableFixes
    decreases |p|
  {
    if |p| > 0 {
      var fx3 := AddInstructionFixes(fx, p[0]);
      AddInstructionFixesCorrect(fx, p[0]);
      ProcessProgramFixesCorrect(p[1..], fx3);
      var r := ProcessProgramFixes(p, fx);
      assert r == ProcessProgramFixes(p[1..], fx3);
      FixesExtendTrans(fx, fx3, r);
      forall l | l in ProgramLabels(p)
        ensures l in r.labelFixes
      {
        var k :| 0 <= k < |p| && l in InstructionLabels(p[k]);
        if k > 0 {
          assert p[k] == p[1..][k - 1];
          assert l in ProgramLabels(p[1..]);
        }
      }
      forall k | 0 <= k < |p| && p[k].sentence.variable.name == Z
        ensures p[k].sentence.variable in r.variableFixes
      {
        if k > 0 {
          assert p[k] == p[1..][k - 1];
        }
      }
    }
  }

  /** A label of a renamed instruction is the renaming of one of its own. */
  lemma FixedLabelOrigin(fx: Fixer, i: Instruction, l: Label) returns (l0: Label)
    requires l in InstructionLabels(FixInstruction(fx, i))
    ensures l0 in InstructionLabels(i) && l == FixLabel(fx, l0)
  {
    if i.lineLabel.Some? && l == FixLabel(fx, i.lineLabel.value) {
      l0 := i.lineLabel.value;
    } else {
      l0 := i.sentence.target;
    }
  }

  /** After shielding and `process_program_fixes`, the renamed body mentions
      only the arguments and names generated above the given floors; every
      `X` and `Y` stays as it was; and two different names that were not
      shielded get different new names. */
  lemma FixedProgramHygienic(p: Program, fx: Fixer, labels: seq<Label>, variables: seq<Variable>)
    requires ShieldTargets(fx, labels, variables)
    ensures var out := FixProgram(p, ProcessProgramFixes(p, fx));
            (forall l :: l in ProgramLabels(out) ==> l in labels || (l.name == A && l.index >= fx.nextLabel)) &&
            (forall k :: 0 <= k < |out| && p[k].sentence.variable.name == Z ==>
               out[k].sentence.variable in variables ||
               (out[k].sentence.variable.name == Z && out[k].sentence.variable.index >= fx.nextVariable)) &&
            (forall k :: 0 <= k < |out| && p[k].sentence.variable.name != Z ==>
               out[k].sentence.variable == p[k].sentence.variable)
    ensures var fx' := ProcessProgramFixes(p, fx);
            forall l, l' ::
              (l in ProgramLabels(p) && l' in ProgramLabels(p) && l != l' && l !in fx.labelFixes && l' !in fx.labelFixes) ==>
              FixLabel(fx', l) != FixLabel(fx', l')
  {
    var fx' := ProcessProgramFixes(p, fx);
    var out := FixProgram(p, fx');
    ProcessProgramFixesCorrect(p, fx);
    assert forall v :: v in fx'.variableFixes ==> v.name == Z;
    FixProgramShape(p, fx');
    forall l | l in ProgramLabels(out)
      ensures l in labels || (l.name == A && l.index >= fx.nextLabel)
    {
      var k :| 0 <= k < |out| && l in InstructionLabels(out[k]);
      var l0 := FixedLabelOrigin(fx', p[k], l);
      assert l0 in ProgramLabels(p);
    }
  }

  // ---------------------------------------------------------------------
  // What emission produces

  /** `lines` written out `n` times. */
  function Copies(lines: seq<string>, n: nat): (r: seq<string>)
    ensures |r| == |lines| * n
  {
    if n == 0 then [] else lines + Copies(lines, n - 1)
  }

  /** Without legacy shielding the renaming state never changes, so every
      walk over a block emits the same lines: the passes emit that many
      copies of them. */
  lemma {:induction false} EmitPassesCopies(d: Dialect, args: seq<(string, ArgType)>, items: seq<Item>, enabled: bool,
                                            e: Expansion, captures: map<string, string>, fx: Fixer, passes: nat)
    requires d != Legacy
    requires passes >= 1
    ensures var once := EmitItems(d, args, items, enabled, e, captures, fx);
            var all := EmitPasses(d, args, items, enabled, e, captures, fx, passes);
            all.Success? <==> once.Success?
    ensures var once := EmitItems(d, args, items, enabled, e, captures, fx);
            var all := EmitPasses(d, args, items, enabled, e, captures, fx, passes);
            once.Success? ==> all.value.0 == Copies(once.value.0, passes)
    decreases passes
  {
    if passes > 1 {
      EmitPassesCopies(d, args, items, enabled, e, captures, fx, passes - 1);
    }
  }

  /** A closed block bound to `k >= 1` emits its lines `k` times; bound to 0
      it walks its lines once without emitting the ones directly inside it. */
  lemma EmitBlockCount(d: Dialect, args: seq<(string, ArgType)>, name: string, items: seq<Item>, enabled: bool,
                       captures: map<string, string>, fx: Fixer, k: nat)
    requires d != Legacy
    requires RepeatCount(name, captures) == Success(k)
    ensures var once := EmitItems(d, args, items, k > 0, AsWritten, captures, fx);
            var block := EmitItem(d, args, Block(name, items, true), enabled, AsWritten, captures, fx);
            (block.Success? <==> once.Success?) &&
            (once.Success? ==> block.value.0 == Copies(once.value.0, if k == 0 then 1 else k))
  {
    EmitPassesCopies(d, args, items, k > 0, AsWritten, captures, fx, if k == 0 then 1 else k);
  }

  /** Lines that are disabled emit nothing. Repaired, nothing inside
      them is emitted either, however the inner blocks are bound, and the
      renaming state is left alone. */
  lemma {:induction false} DisabledEmitsNothing(d: Dialect, args: seq<(string, ArgType)>, items: seq<Item>,
                                                captures: map<string, string>, fx: Fixer)
    ensures var r := EmitItems(d, args, items, false, Repaired, captures, fx);
            r.Success? ==> r.value == ([], fx)
    decreases items, 1
  {
    if |items| > 0 {
      DisabledItemEmitsNothing(d, args, items[0], captures, fx);
      DisabledEmitsNothing(d, args, items[1..], captures, fx);
      var first := EmitItem(d, args, items[0], false, Repaired, captures, fx);
      if first.Success? {
        var rest := EmitItems(d, args, items[1..], false, Repaired, captures, fx);
        if rest.Success? {
          assert first.value.0 + rest.value.0 == [];
        }
      }
    }
  }

  lemma {:induction false} DisabledItemEmitsNothing(d: Dialect, args: seq<(string, ArgType)>, item: Item,
                                                    captures: map<string, string>, fx: Fixer)
    ensures var r := EmitItem(d, args, item, false, Repaired, captures, fx);
            r.Success? ==> r.value == ([], fx)
    decreases item, 2
  {
    match item
    case Line(_, _) =>
    case Block(name, items, closed) =>
      if RepeatCount(name, captures).Success? {
        var k := RepeatCount(name, captures).value;
        DisabledPassesEmitNothing(d, args, items, captures, fx, if closed && k > 1 then k else 1);
      }
  }

  lemma {:induction false} DisabledPassesEmitNothing(d: Dialect, args: seq<(string, ArgType)>, items: seq<Item>,
                                                     captures: map<string, string>, fx: Fixer, passes: nat)
    ensures var r := EmitPasses(d, args, items, false, Repaired, captures, fx, passes);
            r.Success? ==> r.value == ([], fx)
    decreases items, 2, passes
  {
    if passes > 0 {
      DisabledEmitsNothing(d, args, items, captures, fx);
      DisabledPassesEmitNothing(d, args, items, captures, fx, passes - 1);
      var first := EmitItems(d, args, items, false, Repaired, captures, fx);
      if first.Success? {
        var rest := EmitPasses(d, args, items, false, Repaired, captures, fx, passes - 1);
        if rest.Success? {
          assert first.value.0 + rest.value.0 == [];
        }
      }
    }
  }

  /** Repaired, a block bound to 0 emits nothing at all. */
  lemma ZeroBlockEmitsNothing(d: Dialect, args: seq<(string, ArgType)>, name: string, items: seq<Item>, closed: bool,
                              enabled: bool, captures: map<string, string>, fx: Fixer)
    requires RepeatCount(name, captures) == Success(0)
    ensures var r := EmitItem(d, args, Block(name, items, closed), enabled, Repaired, captures, fx);
            r.Success? ==> r.value == ([], fx)
  {
    DisabledPassesEmitNothing(d, args, items, captures, fx, 1);
  }

  /** A body with `{REPEAT N}` around `{REPEAT M}` around one line. */
  function NestedRepeat(line: string): seq<Item> {
    [Block("N", [Block("M", [Line([Lit(line)], false)], true)], true)]
  }

  /** As written, only the innermost counter decides: with `N` bound to 0 and
      `M` to 1, the inner line is still emitted once. */
  lemma NestedZeroBlockAsWritten(d: Dialect, fx: Fixer)
    requires d != Legacy
    ensures EmitItems(d, [], NestedRepeat("X <- X + 1"), true, AsWritten, map["N" := "0", "M" := "1"], fx) ==
            Success((["X <- X + 1"], fx))
  {
    var caps := map["N" := "0", "M" := "1"];
    assert ConstOf("0") == Success(0) by {
      assert DigitsValue("0") == 0 by {
        assert "0"[..0] == [];
      }
    }
    assert ConstOf("1") == Success(1) by {
      assert DigitsValue("1") == 1 by {
        assert "1"[..0] == [];
      }
    }
    var inner := [Line([Lit("X <- X + 1")], false)];
    assert [Lit("X <- X + 1")][1..] == [];
    assert inner[1..] == [];
    assert Render(d, AsWritten, [], [], caps, fx.replacements) == Success([]);
    assert "X <- X + 1" + [] == "X <- X + 1";
    assert Render(d, AsWritten, [], [Lit("X <- X + 1")], caps, fx.replacements) == Success("X <- X + 1");
    assert EmitItem(d, [], inner[0], true, AsWritten, caps, fx) == Success((["X <- X + 1"], fx));
    assert EmitItems(d, [], inner[1..], true, AsWritten, caps, fx) == Success(([], fx));
    assert ["X <- X + 1"] + [] == ["X <- X + 1"];
    assert EmitItems(d, [], inner, true, AsWritten, caps, fx) == Success((["X <- X + 1"], fx));
    assert EmitItems(d, [], [Block("M", inner, true)], false, AsWritten, caps, fx) == Success((["X <- X + 1"], fx));
  }

  /** Repaired, the same body emits nothing. */
  lemma NestedZeroBlockCorrected(d: Dialect, fx: Fixer)
    ensures EmitItems(d, [], NestedRepeat("X <- X + 1"), true, Repaired, map["N" := "0", "M" := "1"], fx) ==
            Success(([], fx))
  {
    var caps := map["N" := "0", "M" := "1"];
    assert ConstOf("0") == Success(0) by {
      assert DigitsValue("0") == 0 by {
        assert "0"[..0] == [];
      }
    }
    assert ConstOf("1") == Success(1) by {
      assert DigitsValue("1") == 1 by {
        assert "1"[..0] == [];
      }
    }
    var inner := [Line([Lit("X <- X + 1")], false)];
    assert inner[1..] == [];
    assert EmitItem(d, [], inner[0], false, Repaired, caps, fx) == Success(([], fx));
    assert EmitItems(d, [], inner[1..], false, Repaired, caps, fx) == Success(([], fx));
    var none: seq<string> := [];
    assert none + none == none;
    assert EmitItems(d, [], inner, false, Repaired, caps, fx) == Success(([], fx));
    assert EmitItems(d, [], [Block("M", inner, true)], false, Repaired, caps, fx) == Success(([], fx));
  }

  // ---------------------------------------------------------------------
  // Looking up shields

  /** The text a compiled argument's shield is stored under. */
  function PrintedValue(val: Value): string {
    match val
    case LabelValue(l) => ShowLabel(l)
    case VariableValue(v) => ShowVariable(v)
    case ConstValue(_) => []
  }

  /** Every label and variable argument has a shield under its printed form. */
  lemma {:induction false} ShieldsCover(params: seq<Value>, fx: Fixer)
    ensures forall val :: val in params && !val.ConstValue? ==> PrintedValue(val) in ShieldParameters(params, fx).replacements
    decreases |params|
  {
    if |params| > 0 {
      var fx' := match params[0]
        case LabelValue(l) =>
          var (g, fx1) := GenerateLabel(fx, SugarInternals);
          fx1.(replacements := fx1.replacements[ShowLabel(l) := ShowLabel(g)], labelFixes := fx1.labelFixes[g := l])
        case VariableValue(v) =>
          var (g, fx1) := GenerateVariable(fx, SugarInternals);
          fx1.(replacements := fx1.replacements[ShowVariable(v) := ShowVariable(g)], variableFixes := fx1.variableFixes[g := v])
        case ConstValue(_) => fx;
      assert ShieldParameters(params, fx) == ShieldParameters(params[1..], fx');
      ShieldsCover(params[1..], fx');
      ShieldsKept(params[1..], fx');
      forall val | val in params && !val.ConstValue?
        ensures PrintedValue(val) in ShieldParameters(params, fx).replacements
      {
        if val != params[0] {
          assert val in params[1..];
        }
      }
    }
  }

  /** Shields already stored stay stored. */
  lemma {:induction false} ShieldsKept(params: seq<Value>, fx: Fixer)
    ensures forall key :: key in fx.replacements ==> key in ShieldParameters(params, fx).replacements
    decreases |params|
  {
    if |params| > 0 {
      var fx' := match params[0]
        case LabelValue(l) =>
          var (g, fx1) := GenerateLabel(fx, SugarInternals);
          fx1.(replacements := fx1.replacements[ShowLabel(l) := ShowLabel(g)], labelFixes := fx1.labelFixes[g := l])
        case VariableValue(v) =>
          var (g, fx1) := GenerateVariable(fx, SugarInternals);
          fx1.(replacements := fx1.replacements[ShowVariable(v) := ShowVariable(g)], variableFixes := fx1.variableFixes[g := v])
        case ConstValue(_) => fx;
      assert ShieldParameters(params, fx) == ShieldParameters(params[1..], fx');
      ShieldsKept(params[1..], fx');
    }
  }

  /** A captured argument whose compiled value was shielded is replaced by
      its shield, however the capture is spelled. */
  lemma LookupFindsShield(t: ArgType, text: string, val: Value, params: seq<Value>, fx: Fixer)
    requires t != ConstArg
    requires CompileArg(Packaged, t, text) == Success(Some(val))
    requires val in params
    ensures var repl := ShieldParameters(params, fx).replacements;
            ShieldKey(t, text) in repl && Lookup(Packaged, Repaired, t, text, repl) == repl[ShieldKey(t, text)]
  {
    ShieldsCover(params, fx);
  }

  /** As written, a capture spelled differently from the printed form misses
      its shield: `Z1` is shielded under `Z`, so the argument is left in the
      body unshielded and can clash with the body's own `Z1`. */
  lemma ShieldLookupAsWritten()
    ensures var repl := ShieldParameters([VariableValue(Variable(Z, 1))], NewFixer([], [])).replacements;
            "Z" in repl && LookupAsWritten(repl, "Z1") == "Z1" && Lookup(Packaged, AsWritten, VariableArg, "Z1", repl) == "Z1"
  {
    ShieldOfZ1();
  }

  /** The one shield made for the argument `Z1`, stored under `Z`. */
  lemma ShieldOfZ1()
    ensures ShieldParameters([VariableValue(Variable(Z, 1))], NewFixer([], [])).replacements ==
            map["Z" := ShowVariable(Variable(Z, SugarInternals + 1))]
  {
    var fx := NewFixer([], []);
    var params := [VariableValue(Variable(Z, 1))];
    assert fx.nextVariable == 1 by {
      assert MaxIndex(VariableIndices([])) == 0;
    }
    assert ShowVariable(Variable(Z, 1)) == "Z";
    var r := ShieldVariable(fx, "Z", Variable(Z, 1));
    assert ShieldParameters(params, fx) == ShieldParameters(params[1..], r);
    assert params[1..] == [];
    assert r.replacements == map["Z" := ShowVariable(Variable(Z, SugarInternals + 1))];
  }

  /** `Z1` is read as the variable printed `Z`. */
  lemma ParseZ1()
    ensures ParseVariable(Packaged, "Z1") == Success(Some(Variable(Z, 1)))
  {
    assert IsIndexText("1");
    VariableTokenOf('Z', "1", []);
    assert ['Z'] + "1" + [] == "Z1" && ['Z'] + "1" == "Z1";
    assert "Z1"[1..] == "1";
    assert DigitsValue("1") == 1 by {
      assert "1"[..0] == [];
    }
    ParseVariableOf(Packaged, "Z1", Variable(Z, 1));
  }

  lemma ShieldKeyZ1()
    ensures ShieldKey(VariableArg, "Z1") == "Z"
  {
    ParseZ1();
    assert ShowVariable(Variable(Z, 1)) == "Z";
  }

  /** Looking up the printed form finds the shield. */
  lemma ShieldLookupCorrected()
    ensures var repl := ShieldParameters([VariableValue(Variable(Z, 1))], NewFixer([], [])).replacements;
            Lookup(Packaged, Repaired, VariableArg, "Z1", repl) == ShowVariable(Variable(Z, SugarInternals + 1))
  {
    ShieldOfZ1();
    ShieldKeyZ1();
  }
}
