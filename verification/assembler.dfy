/** The program assembler: `Program.compile` reads each line as an
    instruction or, failing that, as an invocation of the first sugar that
    accepts it; it then compiles every invocation, in order, into the
    instructions it stands for and splices them in where the invocation
    was; last it checks that the program does not end with an unlabelled
    `Y <- Y`. Compiling a sugar compiles its body with the same assembler,
    over the sugars defined before it. */
module Assembler {
  import opened Wrappers
  import opened Syntax
  import opened Text
  import opened Macro
  import opened Lines

  // ---------------------------------------------------------------------
  // How deeply sugars call each other

  /** A sugar only calls the sugars defined before it, so the calls nest
      at most this deep. */
  function SugarDepth(s: Sugar): (r: nat)
    decreases s
  {
    1 + MaxDepth(s.sugars)
  }

  function MaxDepth(ss: seq<Sugar>): (r: nat)
    ensures forall k :: 0 <= k < |ss| ==> SugarDepth(ss[k]) <= r
    decreases ss
  {
    if |ss| == 0 then 0
    else
      var rest := MaxDepth(ss[1..]);
      assert forall k :: 1 <= k < |ss| ==> ss[k] == ss[1..][k - 1];
      if SugarDepth(ss[0]) > rest then SugarDepth(ss[0]) else rest
  }

  // ---------------------------------------------------------------------
  // Reading lines: `_parse` and `__create_sugar_job`

  /** A sugar invocation waiting to be compiled: which sugar, the line, and
      the index its instructions go in at. */
  datatype Job = Job(sugar: nat, invocation: string, at: nat)

  /** What reading the lines gives: the instructions read so far, the
      pending invocations, and every label and variable used so far. The
      used names are Python sets; only membership and the largest index are
      ever read from them, so a sequence with repetitions stands for one. */
  datatype Parsed = Parsed(instructions: Program, jobs: seq<Job>, labels: seq<Label>, variables: seq<Variable>)

  /** The labels an instruction adds to the used names: its own and the
      one it jumps to. */
  function LabelsOf(i: Instruction): (r: seq<Label>)
    ensures forall l :: l in r <==> l in InstructionLabels(i)
  {
    (if i.lineLabel.Some? then [i.lineLabel.value] else []) + (if i.sentence.Jump? then [i.sentence.target] else [])
  }

  /** The labels and variables a list of instructions adds to the used
      names, in order. */
  function ProgramLabelList(p: Program): (r: seq<Label>)
    ensures forall l :: l in r <==> l in ProgramLabels(p)
  {
    if |p| == 0 then []
    else
      var rest := ProgramLabelList(p[1..]);
      assert forall l :: l in ProgramLabels(p) <==> l in InstructionLabels(p[0]) || l in ProgramLabels(p[1..]) by {
        forall l | l in ProgramLabels(p)
          ensures l in InstructionLabels(p[0]) || l in ProgramLabels(p[1..])
        {
          var k :| 0 <= k < |p| && l in InstructionLabels(p[k]);
          if k > 0 {
            assert p[1..][k - 1] == p[k];
          }
        }
        forall l | l in ProgramLabels(p[1..])
          ensures l in ProgramLabels(p)
        {
          var k :| 0 <= k < |p[1..]| && l in InstructionLabels(p[1..][k]);
          assert p[k + 1] == p[1..][k];
        }
      }
      LabelsOf(p[0]) + rest
  }

  function ProgramVariableList(p: Program): (r: seq<Variable>)
    ensures forall v :: v in r <==> v in ProgramVariables(p)
  {
    if |p| == 0 then []
    else
      var rest := ProgramVariableList(p[1..]);
      assert forall v :: v in ProgramVariables(p) <==> v == p[0].sentence.variable || v in ProgramVariables(p[1..]) by {
        forall v | v in ProgramVariables(p)
          ensures v == p[0].sentence.variable || v in ProgramVariables(p[1..])
        {
          var k :| 0 <= k < |p| && v == p[k].sentence.variable;
          if k > 0 {
            assert p[1..][k - 1] == p[k];
          }
        }
        forall v | v in ProgramVariables(p[1..])
          ensures v in ProgramVariables(p)
        {
          var k :| 0 <= k < |p[1..]| && v == p[1..][k].sentence.variable;
          assert p[k + 1] == p[1..][k];
        }
      }
      [p[0].sentence.variable] + rest
  }

  /** The first sugar, in list order, whose pattern accepts the line. */
  function FirstSugar(sugars: seq<Sugar>, line: string, from: nat): (r: Option<nat>)
    ensures r.Some? ==> from <= r.value < |sugars| && sugars[r.value].matcher(line).Some? &&
                        forall k :: from <= k < r.value ==> sugars[k].matcher(line).None?
    ensures r.None? ==> forall k :: from <= k < |sugars| ==> sugars[k].matcher(line).None?
    decreases |sugars| - from
  {
    if from >= |sugars| then None
    else if sugars[from].matcher(line).Some? then Some(from)
    else FirstSugar(sugars, line, from + 1)
  }

  /** The label of a labelled invocation, `[L]` in front of it; the rest
      of the line may not run past a newline. The legacy copy matches the
      label letter in upper case only. */
  function SugarLabel(d: Dialect, line: string): (r: Option<Label>)
    ensures r.Some? ==> LabelPrefix(TrimStart(line)).Some? && LabelPrefix(TrimStart(line)).value.0 == r.value
    ensures r.Some? ==> ValidLabel(r.value)
  {
    var t := TrimStart(line);
    match LabelPrefix(t)
    case None => None
    case Some((l, rest)) =>
      if LineLength(rest) != |rest| then None
      else if d == Legacy && !UpperLabelLetter(t) then None
      else Some(l)
  }

  /** The letter after `[` and any spaces is one of `A` to `E`. */
  predicate UpperLabelLetter(t: string) {
    |t| > 0 && var a := TrimStart(t[1..]); |a| > 0 && 'A' <= a[0] <= 'E'
  }

  /** The instruction a labelled invocation leaves in front of its
      expansion, so that jumps to the label land there. */
  function LabelHolder(l: Label): Instruction {
    Instruction(Some(l), SetOp(Output, NoOp))
  }

  /** One line read into the state: an instruction, or else an invocation
      of the first sugar that accepts it, whose arguments join the used
      names; an invocation with a label leaves a labelled `Y <- Y` and the
      job goes in after it. With no sugar accepting the line, the line's
      own error is the result. */
  function ParseLine(d: Dialect, sugars: seq<Sugar>, line: string, acc: Parsed): (r: Result<Parsed>)
    ensures ParseInstruction(d, line).Success? ==>
              r == Success(acc.(instructions := acc.instructions + [ParseInstruction(d, line).value],
                                labels := acc.labels + LabelsOf(ParseInstruction(d, line).value),
                                variables := acc.variables + [ParseInstruction(d, line).value.sentence.variable]))
    ensures ParseInstruction(d, line).Failure? && FirstSugar(sugars, line, 0).None? ==> r == ParseInstruction(d, line).PropagateFailure()
    ensures r.Success? && ParseInstruction(d, line).Failure? ==>
              var k := FirstSugar(sugars, line, 0);
              k.Some? && r.value.jobs == acc.jobs + [Job(k.value, line, |r.value.instructions|)] &&
              r.value.instructions ==
                acc.instructions + (if SugarLabel(d, line).Some? then [LabelHolder(SugarLabel(d, line).value)] else [])
    ensures r.Success? ==> |acc.labels| <= |r.value.labels| && r.value.labels[..|acc.labels|] == acc.labels
    ensures r.Success? ==> |acc.variables| <= |r.value.variables| && r.value.variables[..|acc.variables|] == acc.variables
  {
    match ParseInstruction(d, line)
    case Success(i) =>
      Success(acc.(instructions := acc.instructions + [i],
                   labels := acc.labels + LabelsOf(i),
                   variables := acc.variables + [i.sentence.variable]))
    case Failure(e) =>
      match FirstSugar(sugars, line, 0)
      case None => Failure(e)
      case Some(k) =>
        var params :- Parameters(d, sugars[k].args, sugars[k].matcher(line).value);
        var labels := acc.labels + ParameterLabels(params);
        var variables := acc.variables + ParameterVariables(params);
        match SugarLabel(d, line)
        case None => Success(Parsed(acc.instructions, acc.jobs + [Job(k, line, |acc.instructions|)], labels, variables))
        case Some(l) =>
          var instructions := acc.instructions + [LabelHolder(l)];
          Success(Parsed(instructions, acc.jobs + [Job(k, line, |instructions|)], labels + [l], variables))
  }

  /** Every job names a sugar of the list and an index into the
      instructions, and the indices never go down. */
  predicate JobsInOrder(p: Parsed, sugarCount: nat) {
    (forall j :: 0 <= j < |p.jobs| ==> p.jobs[j].sugar < sugarCount && p.jobs[j].at <= |p.instructions|) &&
    (forall i, j :: 0 <= i <= j < |p.jobs| ==> p.jobs[i].at <= p.jobs[j].at)
  }

  /** `_parse` from line `lines[0]` on, into the state read so far. */
  function ParseFrom(d: Dialect, sugars: seq<Sugar>, lines: seq<string>, acc: Parsed): (r: Result<Parsed>)
    requires JobsInOrder(acc, |sugars|)
    ensures r.Success? ==> JobsInOrder(r.value, |sugars|)
    decreases |lines|
  {
    if |lines| == 0 then Success(acc)
    else
      var next :- ParseLine(d, sugars, lines[0], acc);
      ParseLineInOrder(d, sugars, lines[0], acc);
      ParseFrom(d, sugars, lines[1..], next)
  }

  /** A line read keeps the jobs in order. */
  lemma ParseLineInOrder(d: Dialect, sugars: seq<Sugar>, line: string, acc: Parsed)
    requires JobsInOrder(acc, |sugars|)
    ensures var r := ParseLine(d, sugars, line, acc);
            r.Success? ==> JobsInOrder(r.value, |sugars|)
  {
    var r := ParseLine(d, sugars, line, acc);
    if r.Success? && ParseInstruction(d, line).Failure? {
      var k := FirstSugar(sugars, line, 0).value;
      var n := |r.value.instructions|;
      assert r.value.jobs == acc.jobs + [Job(k, line, n)];
      assert |acc.instructions| <= n;
      forall i, j | 0 <= i <= j < |r.value.jobs|
        ensures r.value.jobs[i].at <= r.value.jobs[j].at
      {
        if j == |acc.jobs| {
          if i < j {
            assert r.value.jobs[i] == acc.jobs[i];
          }
        } else {
          assert r.value.jobs[i] == acc.jobs[i] && r.value.jobs[j] == acc.jobs[j];
        }
      }
      forall j | 0 <= j < |r.value.jobs|
        ensures r.value.jobs[j].sugar < |sugars| && r.value.jobs[j].at <= n
      {
        if j < |acc.jobs| {
          assert r.value.jobs[j] == acc.jobs[j];
        }
      }
    }
  }

  function ParseProgram(d: Dialect, sugars: seq<Sugar>, lines: seq<string>): (r: Result<Parsed>)
    ensures r.Success? ==> JobsInOrder(r.value, |sugars|)
  {
    ParseFrom(d, sugars, lines, Parsed([], [], [], []))
  }

  // ---------------------------------------------------------------------
  // Splicing: the insertion loop of `_expand_program`

  function JobIndices(jobs: seq<Job>): (r: seq<nat>)
    ensures |r| == |jobs| && forall k :: 0 <= k < |jobs| ==> r[k] == jobs[k].at
  {
    seq(|jobs|, k requires 0 <= k < |jobs| => jobs[k].at)
  }

  /** Inserts each expansion at its index moved along by `shift`, the
      number of instructions inserted before it, and adds its length to the
      shift of the ones after it. An index past the end appends, as
      `list.insert` does. */
  function SpliceFrom(p: Program, ats: seq<nat>, es: seq<Program>, shift: nat): (r: Program)
    requires |ats| == |es|
    decreases |ats|
  {
    if |ats| == 0 then p
    else
      var at := if ats[0] + shift <= |p| then ats[0] + shift else |p|;
      SpliceFrom(p[..at] + es[0] + p[at..], ats[1..], es[1..], shift + |es[0]|)
  }

  predicate Ascending(ats: seq<nat>) {
    forall i, j :: 0 <= i <= j < |ats| ==> ats[i] <= ats[j]
  }

  /** The instructions read from `from` on with the expansions woven in:
      the lines up to the first job's index, its expansion, the lines up to
      the next job's index, and so on. */
  function Woven(p: Program, ats: seq<nat>, es: seq<Program>, from: nat): (r: Program)
    requires |ats| == |es| && Ascending(ats)
    requires from <= |p| && forall k :: 0 <= k < |ats| ==> from <= ats[k] <= |p|
    decreases |ats|
  {
    if |ats| == 0 then p[from..]
    else p[from..ats[0]] + es[0] + Woven(p, ats[1..], es[1..], ats[0])
  }

  lemma JoinSplit(pre: Program, p: Program, from: nat, at: nat, e: Program)
    requires from <= at <= |p|
    ensures var q := pre + p[from..];
            var i := |pre| + (at - from);
            i <= |q| && q[..i] + e + q[i..] == (pre + p[from..at] + e) + p[at..]
  {
    var q := pre + p[from..];
    var i := |pre| + (at - from);
    assert q[..i] == pre + p[from..at];
    assert q[i..] == p[at..];
  }

  /** The jobs after the first keep ascending, within the first's index and
      the end. */
  lemma AscendingTail(ats: seq<nat>, from: nat, n: nat)
    requires |ats| > 0 && Ascending(ats)
    requires forall k :: 0 <= k < |ats| ==> from <= ats[k] <= n
    ensures Ascending(ats[1..])
    ensures forall k :: 0 <= k < |ats[1..]| ==> ats[0] <= ats[1..][k] <= n
  {
    forall i, j | 0 <= i <= j < |ats[1..]|
      ensures ats[1..][i] <= ats[1..][j]
    {
      assert ats[1..][i] == ats[i + 1] && ats[1..][j] == ats[j + 1];
    }
    forall k | 0 <= k < |ats[1..]|
      ensures ats[0] <= ats[1..][k] <= n
    {
      assert ats[1..][k] == ats[k + 1];
    }
  }

  /** The first splice of `SpliceFrom`, on a program read from `from` after
      `pre`. */
  lemma SpliceFirst(pre: Program, p: Program, ats: seq<nat>, es: seq<Program>, from: nat, shift: nat)
    requires |ats| == |es| && |ats| > 0
    requires from <= ats[0] <= |p|
    requires |pre| == from + shift
    ensures SpliceFrom(pre + p[from..], ats, es, shift) ==
            SpliceFrom((pre + p[from..ats[0]] + es[0]) + p[ats[0]..], ats[1..], es[1..], shift + |es[0]|)
  {
    JoinSplit(pre, p, from, ats[0], es[0]);
  }

  /** The first stretch and expansion of `Woven`, moved into the prefix. */
  lemma WovenFirst(pre: Program, p: Program, ats: seq<nat>, es: seq<Program>, from: nat)
    requires |ats| == |es| && |ats| > 0 && Ascending(ats)
    requires from <= |p| && forall k :: 0 <= k < |ats| ==> from <= ats[k] <= |p|
    requires Ascending(ats[1..]) && forall k :: 0 <= k < |ats[1..]| ==> ats[0] <= ats[1..][k] <= |p|
    ensures (pre + p[from..ats[0]] + es[0]) + Woven(p, ats[1..], es[1..], ats[0]) == pre + Woven(p, ats, es, from)
  {
    var w := Woven(p, ats[1..], es[1..], ats[0]);
    assert Woven(p, ats, es, from) == p[from..ats[0]] + es[0] + w;
    assert (pre + p[from..ats[0]] + es[0]) + w == pre + (p[from..ats[0]] + es[0] + w);
  }

  /** Splicing with shifts puts every expansion exactly where its job was
      read, between the same instructions. */
  lemma {:induction false} SpliceWovenFrom(pre: Program, p: Program, ats: seq<nat>, es: seq<Program>, from: nat, shift: nat)
    requires |ats| == |es| && Ascending(ats)
    requires from <= |p| && forall k :: 0 <= k < |ats| ==> from <= ats[k] <= |p|
    requires |pre| == from + shift
    ensures SpliceFrom(pre + p[from..], ats, es, shift) == pre + Woven(p, ats, es, from)
    decreases |ats|
  {
    if |ats| > 0 {
      var pre' := pre + p[from..ats[0]] + es[0];
      SpliceFirst(pre, p, ats, es, from, shift);
      AscendingTail(ats, from, |p|);
      SpliceWovenFrom(pre', p, ats[1..], es[1..], ats[0], shift + |es[0]|);
      WovenFirst(pre, p, ats, es, from);
    }
  }

  lemma SpliceWoven(p: Program, ats: seq<nat>, es: seq<Program>)
    requires |ats| == |es| && Ascending(ats)
    requires forall k :: 0 <= k < |ats| ==> ats[k] <= |p|
    ensures SpliceFrom(p, ats, es, 0) == Woven(p, ats, es, 0)
  {
    SpliceWovenFrom([], p, ats, es, 0, 0);
    assert [] + p[0..] == p;
    assert [] + Woven(p, ats, es, 0) == Woven(p, ats, es, 0);
  }

  // ---------------------------------------------------------------------
  // Fresh names

  /** Every label of `out` is one of `keep` or an `A` label above every
      label of `used`. */
  predicate LabelsFresh(out: Program, keep: seq<Label>, used: seq<Label>) {
    forall l :: l in ProgramLabels(out) ==> l in keep || (l.name == A && forall m :: m in used ==> m.index < l.index)
  }

  /** Every `Z` variable of `out` is one of `keep` or above every variable
      of `used`. */
  predicate VariablesFresh(out: Program, keep: seq<Variable>, used: seq<Variable>) {
    forall v :: v in ProgramVariables(out) && v.name == Z ==> v in keep || forall w :: w in used ==> w.index < v.index
  }

  /** The label and variable arguments of a job's invocation. */
  function JobLabels(d: Dialect, sugars: seq<Sugar>, job: Job): seq<Label>
    requires job.sugar < |sugars|
  {
    match sugars[job.sugar].matcher(job.invocation)
    case None => []
    case Some(captures) => ArgLabels(sugars[job.sugar].args, captures)
  }

  function JobVariables(d: Dialect, sugars: seq<Sugar>, job: Job): seq<Variable>
    requires job.sugar < |sugars|
  {
    match sugars[job.sugar].matcher(job.invocation)
    case None => []
    case Some(captures) => ArgVariables(d, sugars[job.sugar].args, captures)
  }

  /** Names above a joined list of used names are above either part. */
  lemma FreshSplit(out: Program, keepLabels: seq<Label>, keepVariables: seq<Variable>,
                   labels: seq<Label>, moreLabels: seq<Label>, variables: seq<Variable>, moreVariables: seq<Variable>)
    requires LabelsFresh(out, keepLabels, labels + moreLabels)
    requires VariablesFresh(out, keepVariables, variables + moreVariables)
    ensures LabelsFresh(out, keepLabels, labels) && LabelsFresh(out, keepLabels, moreLabels)
    ensures VariablesFresh(out, keepVariables, variables) && VariablesFresh(out, keepVariables, moreVariables)
  {
  }

  /** The label and variable arguments of the jobs from `k` on. */
  function JobsLabels(d: Dialect, sugars: seq<Sugar>, jobs: seq<Job>, k: nat): (r: seq<seq<Label>>)
    requires k <= |jobs|
    requires forall j :: 0 <= j < |jobs| ==> jobs[j].sugar < |sugars|
    ensures |r| == |jobs| - k
    decreases |jobs| - k
  {
    if k == |jobs| then [] else [JobLabels(d, sugars, jobs[k])] + JobsLabels(d, sugars, jobs, k + 1)
  }

  function JobsVariables(d: Dialect, sugars: seq<Sugar>, jobs: seq<Job>, k: nat): (r: seq<seq<Variable>>)
    requires k <= |jobs|
    requires forall j :: 0 <= j < |jobs| ==> jobs[j].sugar < |sugars|
    ensures |r| == |jobs| - k
    decreases |jobs| - k
  {
    if k == |jobs| then [] else [JobVariables(d, sugars, jobs[k])] + JobsVariables(d, sugars, jobs, k + 1)
  }

  /** Every program of `es` mentions only its own arguments and names above
      the used ones. */
  predicate AllFresh(es: seq<Program>, keepLabels: seq<seq<Label>>, keepVariables: seq<seq<Variable>>,
                     labels: seq<Label>, variables: seq<Variable>)
    requires |keepLabels| == |es| && |keepVariables| == |es|
  {
    forall j :: 0 <= j < |es| ==>
      LabelsFresh(es[j], keepLabels[j], labels) && VariablesFresh(es[j], keepVariables[j], variables)
  }

  /** Every program of `es` mentions only its own arguments and names above
      those of the programs before it. */
  predicate AllApart(es: seq<Program>, keepLabels: seq<seq<Label>>, keepVariables: seq<seq<Variable>>)
    requires |keepLabels| == |es| && |keepVariables| == |es|
  {
    forall i, j :: 0 <= i < j < |es| ==>
      LabelsFresh(es[j], keepLabels[j], ProgramLabelList(es[i])) &&
      VariablesFresh(es[j], keepVariables[j], ProgramVariableList(es[i]))
  }

  lemma AllFreshCons(e: Program, rest: seq<Program>, keepLabels: seq<seq<Label>>, keepVariables: seq<seq<Variable>>,
                     labels: seq<Label>, variables: seq<Variable>)
    requires |keepLabels| == |rest| + 1 && |keepVariables| == |rest| + 1
    requires LabelsFresh(e, keepLabels[0], labels) && VariablesFresh(e, keepVariables[0], variables)
    requires AllFresh(rest, keepLabels[1..], keepVariables[1..], labels + ProgramLabelList(e), variables + ProgramVariableList(e))
    ensures AllFresh([e] + rest, keepLabels, keepVariables, labels, variables)
    ensures AllFresh(rest, keepLabels[1..], keepVariables[1..], ProgramLabelList(e), ProgramVariableList(e))
  {
    var es := [e] + rest;
    forall j | 0 < j < |es|
      ensures LabelsFresh(es[j], keepLabels[j], labels) && VariablesFresh(es[j], keepVariables[j], variables)
      ensures LabelsFresh(es[j], keepLabels[j], ProgramLabelList(e)) && VariablesFresh(es[j], keepVariables[j], ProgramVariableList(e))
    {
      assert es[j] == rest[j - 1] && keepLabels[j] == keepLabels[1..][j - 1] && keepVariables[j] == keepVariables[1..][j - 1];
      FreshSplit(rest[j - 1], keepLabels[j], keepVariables[j], labels, ProgramLabelList(e), variables, ProgramVariableList(e));
    }
  }

  lemma AllApartCons(e: Program, rest: seq<Program>, keepLabels: seq<seq<Label>>, keepVariables: seq<seq<Variable>>)
    requires |keepLabels| == |rest| + 1 && |keepVariables| == |rest| + 1
    requires AllFresh(rest, keepLabels[1..], keepVariables[1..], ProgramLabelList(e), ProgramVariableList(e))
    requires AllApart(rest, keepLabels[1..], keepVariables[1..])
    ensures AllApart([e] + rest, keepLabels, keepVariables)
  {
    var es := [e] + rest;
    forall i, j | 0 <= i < j < |es|
      ensures LabelsFresh(es[j], keepLabels[j], ProgramLabelList(es[i]))
      ensures VariablesFresh(es[j], keepVariables[j], ProgramVariableList(es[i]))
    {
      ApartPair(e, rest, keepLabels, keepVariables, i, j);
    }
  }

  /** One pair of `AllApartCons`, the later program taken from `rest`. */
  lemma ApartPair(e: Program, rest: seq<Program>, keepLabels: seq<seq<Label>>, keepVariables: seq<seq<Variable>>,
                  i: nat, j: nat)
    requires |keepLabels| == |rest| + 1 && |keepVariables| == |rest| + 1
    requires AllFresh(rest, keepLabels[1..], keepVariables[1..], ProgramLabelList(e), ProgramVariableList(e))
    requires AllApart(rest, keepLabels[1..], keepVariables[1..])
    requires i < j <= |rest|
    ensures LabelsFresh(([e] + rest)[j], keepLabels[j], ProgramLabelList(([e] + rest)[i]))
    ensures VariablesFresh(([e] + rest)[j], keepVariables[j], ProgramVariableList(([e] + rest)[i]))
  {
    var later := rest[j - 1];
    var kl := keepLabels[1..][j - 1];
    var kv := keepVariables[1..][j - 1];
    assert ([e] + rest)[j] == later && keepLabels[j] == kl && keepVariables[j] == kv;
    var earlier := if i == 0 then e else rest[i - 1];
    assert ([e] + rest)[i] == earlier;
    if i == 0 {
      assert LabelsFresh(later, kl, ProgramLabelList(e)) && VariablesFresh(later, kv, ProgramVariableList(e));
    } else {
      assert LabelsFresh(later, kl, ProgramLabelList(earlier)) && VariablesFresh(later, kv, ProgramVariableList(earlier));
    }
  }

  /** A renamed body mentions, besides `X`, `Y` and the shielded
      arguments, only names above the used ones, when the generators
      started above them. */
  lemma FixedProgramFresh(p: Program, fx: Fixer, keepLabels: seq<Label>, keepVariables: seq<Variable>,
                          labels: seq<Label>, variables: seq<Variable>)
    requires ShieldTargets(fx, keepLabels, keepVariables)
    requires forall l :: l in labels ==> l.index < fx.nextLabel
    requires forall v :: v in variables ==> v.index < fx.nextVariable
    ensures LabelsFresh(FixProgram(p, ProcessProgramFixes(p, fx)), keepLabels, labels)
    ensures VariablesFresh(FixProgram(p, ProcessProgramFixes(p, fx)), keepVariables, variables)
  {
    var out := FixProgram(p, ProcessProgramFixes(p, fx));
    FixedProgramHygienic(p, fx, keepLabels, keepVariables);
    forall v | v in ProgramVariables(out) && v.name == Z
      ensures v in keepVariables || forall w :: w in variables ==> w.index < v.index
    {
      var k :| 0 <= k < |out| && v == out[k].sentence.variable;
    }
  }

  // ---------------------------------------------------------------------
  // Compiling: `Program.compile`, `_expand_program` and
  // `SyntacticSugar.compile`

  /** `Program.compile`: read the lines, compile the invocations, splice
      them in, check the convention. */
  function CompileProgram(d: Dialect, e: Expansion, sugars: seq<Sugar>, lines: seq<string>): (r: Result<Program>)
    ensures r.Success? ==> RespectsConvention(r.value)
    decreases MaxDepth(sugars), 2
  {
    var parsed :- ParseProgram(d, sugars, lines);
    var es :- ExpandJobs(d, e, sugars, parsed.jobs, 0, parsed.labels, parsed.variables);
    var p := SpliceFrom(parsed.instructions, JobIndices(parsed.jobs), es, 0);
    if !RespectsConvention(p) then Failure("Convention of Y<-Y is not respected!") else Success(p)
  }

  /** The expansions of the jobs from `k` on, in order. Each is compiled
      against the names used so far, and its own names join them before
      the next one is compiled. So each expansion's own names are above the
      names used before the first one and above every name of the
      expansions before it: no two expansions share a generated name. */
  function ExpandJobs(d: Dialect, e: Expansion, sugars: seq<Sugar>, jobs: seq<Job>, k: nat,
                      labels: seq<Label>, variables: seq<Variable>): (r: Result<seq<Program>>)
    requires k <= |jobs|
    requires forall j :: 0 <= j < |jobs| ==> jobs[j].sugar < |sugars|
    ensures r.Success? ==> |r.value| == |jobs| - k
    ensures r.Success? ==>
              AllFresh(r.value, JobsLabels(d, sugars, jobs, k), JobsVariables(d, sugars, jobs, k), labels, variables)
    ensures r.Success? ==> AllApart(r.value, JobsLabels(d, sugars, jobs, k), JobsVariables(d, sugars, jobs, k))
    decreases MaxDepth(sugars), 1, |jobs| - k
  {
    if k == |jobs| then Success([])
    else
      var ex :- SugarCompile(d, e, sugars[jobs[k].sugar], jobs[k].invocation, Some(labels), Some(variables));
      var rest :- ExpandJobs(d, e, sugars, jobs, k + 1, labels + ProgramLabelList(ex), variables + ProgramVariableList(ex));
      var kl := JobsLabels(d, sugars, jobs, k);
      var kv := JobsVariables(d, sugars, jobs, k);
      assert kl[1..] == JobsLabels(d, sugars, jobs, k + 1);
      assert kv[1..] == JobsVariables(d, sugars, jobs, k + 1);
      AllFreshCons(ex, rest, kl, kv, labels, variables);
      AllApartCons(ex, rest, kl, kv);
      Success([ex] + rest)
  }

  /** `SyntacticSugar.compile`: match the invocation; shield the label and
      variable arguments (the packaged copy does it once, up front, and
      needs the used names; the legacy copy does it line by line and takes
      missing used names as none); unroll the body; compile it with the
      sugars this one may call; rename everything the body introduced. What
      it compiles to mentions, besides `X`, `Y` and its label and variable
      arguments, only names above every used one. `e` chooses the body
      expansion as written or with its two slips repaired (see
      `Macro.Expansion`). */
  function SugarCompile(d: Dialect, e: Expansion, s: Sugar, invocation: string,
                        labels: Option<seq<Label>>, variables: Option<seq<Variable>>): (r: Result<Program>)
    ensures r.Success? ==> s.matcher(invocation).Some?
    ensures d != Legacy && (labels.None? || variables.None?) ==> r.Failure?
    ensures r.Success? && labels.Some? ==>
              LabelsFresh(r.value, ArgLabels(s.args, s.matcher(invocation).value), labels.value)
    ensures r.Success? && variables.Some? ==>
              VariablesFresh(r.value, ArgVariables(d, s.args, s.matcher(invocation).value), variables.value)
    decreases SugarDepth(s), 0
  {
    match s.matcher(invocation)
    case None => Failure("Failed using sugar to compile line")
    case Some(captures) =>
      if d != Legacy && (labels.None? || variables.None?) then Failure("No used names to generate names above")
      else
        var usedLabels := if labels.Some? then labels.value else [];
        var usedVariables := if variables.Some? then variables.value else [];
        var fx0 := NewFixer(usedVariables, usedLabels);
        var fx1 :- Shields(d, s, captures, fx0);
        var nested :- Nest(s.body, 0, false);
        var emitted :- EmitItems(d, s.args, nested.0, true, e, captures, fx1);
        var p :- CompileProgram(d, e, s.sugars, emitted.0);
        var out := FixProgram(p, ProcessProgramFixes(p, emitted.1));
        ShieldChain(fx0, fx1, emitted.1, ArgLabels(s.args, captures), ArgVariables(d, s.args, captures),
                    usedLabels, usedVariables);
        FixedProgramFresh(p, emitted.1, ArgLabels(s.args, captures), ArgVariables(d, s.args, captures),
                          usedLabels, usedVariables);
        Success(out)
  }

  /** A fresh fixer, shielded and then used for emitting, still renames
      only to the arguments and still counts above every used name. */
  lemma ShieldChain(fx0: Fixer, fx1: Fixer, fx2: Fixer, keepLabels: seq<Label>, keepVariables: seq<Variable>,
                    labels: seq<Label>, variables: seq<Variable>)
    requires fx0.labelFixes == map[] && fx0.variableFixes == map[]
    requires forall l :: l in labels ==> l.index < fx0.nextLabel
    requires forall v :: v in variables ==> v.index < fx0.nextVariable
    requires fx1.nextLabel >= fx0.nextLabel && fx1.nextVariable >= fx0.nextVariable
    requires fx2.nextLabel >= fx1.nextLabel && fx2.nextVariable >= fx1.nextVariable
    requires ShieldTargets(fx0, keepLabels, keepVariables) ==> ShieldTargets(fx1, keepLabels, keepVariables)
    requires ShieldTargets(fx1, keepLabels, keepVariables) ==> ShieldTargets(fx2, keepLabels, keepVariables)
    ensures ShieldTargets(fx2, keepLabels, keepVariables)
    ensures forall l :: l in labels ==> l.index < fx2.nextLabel
    ensures forall v :: v in variables ==> v.index < fx2.nextVariable
  {
    assert ShieldTargets(fx0, keepLabels, keepVariables);
  }

  /** The packaged up-front shielding of the compiled arguments, each
      distinct one once; the legacy copy shields while emitting instead. */
  function Shields(d: Dialect, s: Sugar, captures: map<string, string>, fx: Fixer): (r: Result<Fixer>)
    ensures d == Legacy ==> r == Success(fx)
    ensures r.Success? ==> r.value.nextLabel >= fx.nextLabel && r.value.nextVariable >= fx.nextVariable
    ensures r.Success? && ShieldTargets(fx, ArgLabels(s.args, captures), ArgVariables(d, s.args, captures)) ==>
            ShieldTargets(r.value, ArgLabels(s.args, captures), ArgVariables(d, s.args, captures))
  {
    if d == Legacy then Success(fx)
    else
      var params :- Parameters(d, s.args, captures);
      ParametersInArgs(d, s.args, captures);
      Success(ShieldParameters(Dedupe(params), fx))
  }

  // ---------------------------------------------------------------------
  // Without sugars: every line is an instruction

  /** Every line reads as an instruction. */
  predicate AllParse(d: Dialect, lines: seq<string>)
    decreases |lines|
  {
    |lines| == 0 || (ParseInstruction(d, lines[0]).Success? && AllParse(d, lines[1..]))
  }

  /** The instructions the lines read as, one each, in order. */
  function ParsedLines(d: Dialect, lines: seq<string>): (r: Program)
    requires AllParse(d, lines)
    ensures |r| == |lines|
    decreases |lines|
  {
    if |lines| == 0 then [] else [ParseInstruction(d, lines[0]).value] + ParsedLines(d, lines[1..])
  }

  /** With no sugars a line either reads as an instruction, which is
      added, or is the error. */
  lemma NoSugarLine(d: Dialect, line: string, acc: Parsed)
    ensures ParseLine(d, [], line, acc).Success? <==> ParseInstruction(d, line).Success?
    ensures ParseInstruction(d, line).Success? ==>
              ParseLine(d, [], line, acc).value.instructions == acc.instructions + [ParseInstruction(d, line).value] &&
              ParseLine(d, [], line, acc).value.jobs == acc.jobs
  {
    assert FirstSugar([], line, 0).None?;
  }

  /** With no sugars, reading succeeds exactly when every line is an
      instruction. */
  lemma {:induction false} ParseFromNoSugars(d: Dialect, lines: seq<string>, acc: Parsed)
    requires acc.jobs == []
    ensures ParseFrom(d, [], lines, acc).Success? <==> AllParse(d, lines)
    decreases |lines|
  {
    if |lines| > 0 {
      NoSugarLine(d, lines[0], acc);
      var r := ParseLine(d, [], lines[0], acc);
      if r.Success? {
        ParseFromNoSugars(d, lines[1..], r.value);
      }
    }
  }

  /** ... and then the instructions are the lines read, and no job is left. */
  lemma {:induction false} ParseFromNoSugarsValue(d: Dialect, lines: seq<string>, acc: Parsed)
    requires acc.jobs == []
    requires AllParse(d, lines)
    ensures ParseFrom(d, [], lines, acc).Success?
    ensures ParseFrom(d, [], lines, acc).value.instructions == acc.instructions + ParsedLines(d, lines)
    ensures ParseFrom(d, [], lines, acc).value.jobs == []
    decreases |lines|
  {
    ParseFromNoSugars(d, lines, acc);
    if |lines| > 0 {
      NoSugarLine(d, lines[0], acc);
      var i := ParseInstruction(d, lines[0]).value;
      var next := ParseLine(d, [], lines[0], acc).value;
      assert ParseFrom(d, [], lines, acc) == ParseFrom(d, [], lines[1..], next);
      ParseFromNoSugarsValue(d, lines[1..], next);
      assert ParsedLines(d, lines) == [i] + ParsedLines(d, lines[1..]);
      AppendOne(acc.instructions, i, ParsedLines(d, lines[1..]));
    }
  }

  lemma AppendOne(a: Program, i: Instruction, b: Program)
    ensures a + [i] + b == a + ([i] + b)
  {
  }

  /** A read with no invocation compiles to its instructions, or fails the
      convention. */
  lemma CompileNoJobs(d: Dialect, e: Expansion, sugars: seq<Sugar>, lines: seq<string>)
    requires ParseProgram(d, sugars, lines).Success? && ParseProgram(d, sugars, lines).value.jobs == []
    ensures var p := ParseProgram(d, sugars, lines).value.instructions;
            CompileProgram(d, e, sugars, lines) ==
              if RespectsConvention(p) then Success(p) else Failure("Convention of Y<-Y is not respected!")
  {
    var parsed := ParseProgram(d, sugars, lines).value;
    assert ExpandJobs(d, e, sugars, parsed.jobs, 0, parsed.labels, parsed.variables) == Success([]);
    assert SpliceFrom(parsed.instructions, JobIndices(parsed.jobs), [], 0) == parsed.instructions;
  }

  /** `Program.compile` with no sugars reads every line as an instruction,
      in order, and refuses a program ending with an unlabelled `Y <- Y`. */
  lemma CompileWithoutSugars(d: Dialect, e: Expansion, lines: seq<string>)
    ensures CompileProgram(d, e, [], lines).Success? <==> AllParse(d, lines) && RespectsConvention(ParsedLines(d, lines))
    ensures CompileProgram(d, e, [], lines).Success? ==> CompileProgram(d, e, [], lines).value == ParsedLines(d, lines)
  {
    ParseFromNoSugars(d, lines, Parsed([], [], [], []));
    if AllParse(d, lines) {
      ParseFromNoSugarsValue(d, lines, Parsed([], [], [], []));
      assert [] + ParsedLines(d, lines) == ParsedLines(d, lines);
      CompileNoJobs(d, e, [], lines);
    }
  }

  // ---------------------------------------------------------------------
  // Where expansions land

  /** An assembled program is the instructions read with every expansion
      woven in at the place of its invocation. */
  lemma CompileProgramWoven(d: Dialect, e: Expansion, sugars: seq<Sugar>, lines: seq<string>)
    requires CompileProgram(d, e, sugars, lines).Success?
    ensures var parsed := ParseProgram(d, sugars, lines).value;
            var es := ExpandJobs(d, e, sugars, parsed.jobs, 0, parsed.labels, parsed.variables);
            es.Success? &&
            CompileProgram(d, e, sugars, lines).value == Woven(parsed.instructions, JobIndices(parsed.jobs), es.value, 0)
  {
    var parsed := ParseProgram(d, sugars, lines).value;
    var es := ExpandJobs(d, e, sugars, parsed.jobs, 0, parsed.labels, parsed.variables).value;
    SpliceWoven(parsed.instructions, JobIndices(parsed.jobs), es);
  }

  // ---------------------------------------------------------------------
  // The oldest copy: no sugars

  /** Every line read as an instruction; the first line that does not read
      is the error. */
  function ParseAll(d: Dialect, lines: seq<string>): (r: Result<Program>)
    ensures r.Success? <==> AllParse(d, lines)
    ensures r.Success? ==> r.value == ParsedLines(d, lines)
    decreases |lines|
  {
    if lines == [] then Success([])
    else
      var i :- ParseInstruction(d, lines[0]);
      var rest :- ParseAll(d, lines[1..]);
      Success([i] + rest)
  }

  /** The lines `Program.compile` of the oldest copy reads: its arguments,
      or the lines of its one argument. */
  function OldestLines(args: seq<string>): seq<string>
    requires |args| > 0
  {
    if |args| > 1 then args else SplitLines(args[0])
  }

  /** `Program.compile` of the oldest copy: no arguments, or no lines, fail
      when it takes the first argument or the last instruction. */
  function OldestCompile(args: seq<string>): (r: Result<Program>)
    ensures r.Success? <==>
              |args| > 0 && |OldestLines(args)| > 0 && AllParse(Oldest, OldestLines(args)) &&
              RespectsConvention(ParsedLines(Oldest, OldestLines(args)))
    ensures r.Success? ==> r.value == ParsedLines(Oldest, OldestLines(args)) && |r.value| > 0
  {
    if |args| == 0 then Failure("tuple index out of range")
    else
      var p :- ParseAll(Oldest, OldestLines(args));
      if |p| == 0 then Failure("list index out of range")
      else if IsBareOutputNoOp(p[|p| - 1]) then Failure("Convention of Y<-Y is not respected!")
      else Success(p)
  }

  /** On lines it can read, the oldest compile agrees with the packaged
      assembler given no sugars; only the empty program is refused by the
      oldest copy alone. */
  lemma OldestCompileAsAssembler(e: Expansion, args: seq<string>)
    requires |args| > 0
    ensures OldestCompile(args).Success? <==>
              |OldestLines(args)| > 0 && CompileProgram(Oldest, e, [], OldestLines(args)).Success?
    ensures OldestCompile(args).Success? ==>
              OldestCompile(args).value == CompileProgram(Oldest, e, [], OldestLines(args)).value
  {
    CompileWithoutSugars(Oldest, e, OldestLines(args));
  }

  /** A one-argument source whose lines are joined with newlines compiles
      to those lines read one by one. */
  lemma OldestCompileJoined(lines: seq<string>)
    requires forall k :: 0 <= k < |lines| ==> NoLineBreak(lines[k])
    requires |lines| > 0 && AllParse(Oldest, lines)
    requires RespectsConvention(ParsedLines(Oldest, lines))
    ensures OldestCompile([JoinLines(lines)]) == Success(ParsedLines(Oldest, lines))
  {
    SplitJoinLines(lines);
  }
}
