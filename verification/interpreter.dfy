/** The S machine: a program, the instruction index, a label map sending
    every label to where a jump to it goes, and a table of variable values.
    One step runs the current instruction; the machine halts, reporting
    `Y`, once the index reaches the end of the program. Two versions are
    modelled: the current one always has `Y` in its table, the oldest one
    only has the variables the program mentions. */
module Interpreter {
  import opened Wrappers
  import opened Syntax

  datatype Version = Current | Oldest

  datatype Machine = Machine(version: Version, program: Program, labels: map<Label, nat>,
                             index: nat, vars: map<Variable, nat>)

  // ---------------------------------------------------------------------
  // The label map

  /** Some instruction carries label `l`. */
  predicate Defines(p: Program, l: Label) {
    exists j :: 0 <= j < |p| && p[j].lineLabel == Some(l)
  }

  /** Some jump goes to `l`. */
  predicate Targets(p: Program, l: Label) {
    exists j :: 0 <= j < |p| && p[j].sentence.Jump? && p[j].sentence.target == l
  }

  /** `m` sends each label defined in `p[..n]` to its first definition. */
  ghost predicate FirstDefinitions(p: Program, n: nat, m: map<Label, nat>)
    requires n <= |p|
  {
    (forall l :: l in m <==> exists j :: 0 <= j < n && p[j].lineLabel == Some(l)) &&
    (forall l :: l in m ==> m[l] < n && p[m[l]].lineLabel == Some(l) &&
                            forall j :: 0 <= j < m[l] ==> p[j].lineLabel != Some(l))
  }

  /** The first pass: each label goes to the first instruction it labels. */
  function DefineLabels(p: Program, k: nat, acc: map<Label, nat>): (r: map<Label, nat>)
    requires k <= |p| && FirstDefinitions(p, k, acc)
    ensures FirstDefinitions(p, |p|, r)
    decreases |p| - k
  {
    if k == |p| then acc
    else
      var next := if p[k].lineLabel.Some? && p[k].lineLabel.value !in acc
                  then acc[p[k].lineLabel.value := k] else acc;
      assert FirstDefinitions(p, k + 1, next) by {
        forall l | l in next
          ensures next[l] < k + 1 && p[next[l]].lineLabel == Some(l)
          ensures forall j :: 0 <= j < next[l] ==> p[j].lineLabel != Some(l)
        {
          if l !in acc {
            assert p[k].lineLabel == Some(l) && next[l] == k;
          }
        }
      }
      DefineLabels(p, k + 1, next)
  }

  /** The second pass: a jump target no instruction defines goes to the end
      of the program. */
  function AddTargets(p: Program, k: nat, acc: map<Label, nat>): (r: map<Label, nat>)
    requires k <= |p|
    ensures forall l :: l in acc ==> l in r && r[l] == acc[l]
    ensures forall l :: l in r <==> l in acc || exists j :: k <= j < |p| && p[j].sentence.Jump? && p[j].sentence.target == l
    ensures forall l :: l in r && l !in acc ==> r[l] == |p|
    decreases |p| - k
  {
    if k == |p| then acc
    else
      var s := p[k].sentence;
      var next := if s.Jump? && s.target !in acc then acc[s.target := |p|] else acc;
      AddTargets(p, k + 1, next)
  }

  /** The label map of `Interpreter.__init__`. A label is in it exactly
      when the program defines it or jumps to it; a defined label goes to
      its first definition, any other to the end of the program, so a jump
      to it halts the machine. */
  function LabelMap(p: Program): (r: map<Label, nat>)
    ensures forall l :: l in r <==> Defines(p, l) || Targets(p, l)
    ensures forall l :: Defines(p, l) ==>
              r[l] < |p| && p[r[l]].lineLabel == Some(l) && forall j :: 0 <= j < r[l] ==> p[j].lineLabel != Some(l)
    ensures forall l :: l in r && !Defines(p, l) ==> r[l] == |p|
  {
    var defined := DefineLabels(p, 0, map[]);
    AddTargets(p, 0, defined)
  }

  // ---------------------------------------------------------------------
  // The variable table

  function CollectVariables(p: Program, k: nat, acc: map<Variable, nat>): (r: map<Variable, nat>)
    requires k <= |p|
    requires forall v :: v in acc ==> acc[v] == 0
    ensures forall v :: v in r <==> v in acc || exists j :: k <= j < |p| && p[j].sentence.variable == v
    ensures forall v :: v in r ==> r[v] == 0
    decreases |p| - k
  {
    if k == |p| then acc
    else CollectVariables(p, k + 1, acc[p[k].sentence.variable := 0])
  }

  /** What the machine needs to run: the index within or at the end of the
      program, every mentioned variable in the table, every jump target in
      the label map and going at most to the end, and, in the current
      version, `Y` in the table. */
  predicate Ready(m: Machine) {
    m.index <= |m.program| &&
    (forall k :: 0 <= k < |m.program| ==> m.program[k].sentence.variable in m.vars) &&
    (forall k :: 0 <= k < |m.program| && m.program[k].sentence.Jump? ==> m.program[k].sentence.target in m.labels) &&
    (forall l :: l in m.labels ==> m.labels[l] <= |m.program|) &&
    (m.version == Current ==> Output in m.vars)
  }

  /** `Interpreter.__init__`: the table holds exactly the variables the
      program mentions, and `Y` in the current version, all at 0. */
  function Load(version: Version, p: Program): (m: Machine)
    ensures Ready(m) && m.index == 0 && m.program == p && m.version == version
    ensures forall v :: v in m.vars <==> v in ProgramVariables(p) || (version == Current && v == Output)
    ensures forall v :: v in m.vars ==> m.vars[v] == 0
    ensures m.labels == LabelMap(p)
  {
    var start: map<Variable, nat> := if version == Current then map[Output := 0] else map[];
    var vars := CollectVariables(p, 0, start);
    assert forall k :: 0 <= k < |p| ==> p[k].sentence.variable in vars;
    forall v | v in vars
      ensures v in ProgramVariables(p) || (version == Current && v == Output)
    {
      if v !in start {
        var j :| 0 <= j < |p| && p[j].sentence.variable == v;
      }
    }
    var labels := LabelMap(p);
    forall k | 0 <= k < |p| && p[k].sentence.Jump?
      ensures p[k].sentence.target in labels
    {
      assert Targets(p, p[k].sentence.target);
    }
    Machine(version, p, labels, 0, vars)
  }

  // ---------------------------------------------------------------------
  // Stepping

  /** A set-operation on a value; a decrement stops at 0. */
  function Apply(op: Op, n: nat): (r: nat)
    ensures op == Decrement ==> r == if n > 0 then n - 1 else 0
    ensures op == Increment ==> r == n + 1
    ensures op == NoOp ==> r == n
  {
    match op
    case NoOp => n
    case Increment => n + 1
    case Decrement => if n > 0 then n - 1 else 0
  }

  /** The instruction at the index, run. */
  function Execute(m: Machine): (r: Machine)
    requires Ready(m) && m.index < |m.program|
    ensures Ready(r)
    ensures r.version == m.version && r.program == m.program && r.labels == m.labels
    ensures m.vars.Keys == r.vars.Keys
  {
    match m.program[m.index].sentence
    case Jump(v, l) =>
      m.(index := if m.vars[v] != 0 then m.labels[l] else m.index + 1)
    case SetOp(v, op) =>
      m.(index := m.index + 1, vars := m.vars[v := Apply(op, m.vars[v])])
  }

  /** `Interpreter.step`: run the current instruction if there is one, and
      report `Y` once the index is at the end. The oldest version fails
      there when the program never mentions `Y`. */
  function Step(m: Machine): (r: Result<(Machine, Option<nat>)>)
    requires Ready(m)
    ensures r.Success? ==> Ready(r.value.0) && r.value.0.program == m.program && r.value.0.version == m.version
    ensures r.Success? ==> (r.value.1.Some? <==> r.value.0.index == |m.program|)
    ensures r.Success? && r.value.1.Some? ==> Output in r.value.0.vars && r.value.1.value == r.value.0.vars[Output]
    ensures r.Failure? <==> m.version == Oldest && Output !in m.vars && (m.index == |m.program| || Execute(m).index == |m.program|)
  {
    var next := if m.index < |m.program| then Execute(m) else m;
    if next.index == |m.program| then
      if Output in next.vars then Success((next, Some(next.vars[Output])))
      else Failure("KeyError: Variable(name='Y', index=1)")
    else Success((next, None))
  }

  /** A jump goes to the label map's entry when its variable is non-zero
      and to the next instruction otherwise, and changes no variable. */
  lemma StepJump(m: Machine)
    requires Ready(m) && m.index < |m.program| && m.program[m.index].sentence.Jump?
    requires Step(m).Success?
    ensures var s := m.program[m.index].sentence;
            var next := Step(m).value.0;
            next.vars == m.vars &&
            next.index == if m.vars[s.variable] != 0 then m.labels[s.target] else m.index + 1
  {
  }

  /** A set-operation moves to the next instruction and changes its own
      variable only. */
  lemma StepSetOp(m: Machine)
    requires Ready(m) && m.index < |m.program| && m.program[m.index].sentence.SetOp?
    requires Step(m).Success?
    ensures var s := m.program[m.index].sentence;
            var next := Step(m).value.0;
            next.index == m.index + 1 &&
            next.vars == m.vars[s.variable := Apply(s.op, m.vars[s.variable])]
  {
  }

  /** At the end, a step changes nothing and reports `Y` again. */
  lemma StepAtEnd(m: Machine)
    requires Ready(m) && m.index == |m.program| && Output in m.vars
    ensures Step(m) == Success((m, Some(m.vars[Output])))
  {
  }

  /** A jump to a label no instruction defines ends the run. */
  lemma JumpToUndefinedHalts(p: Program, m: Machine)
    requires Ready(m) && m.labels == LabelMap(p) && m.program == p
    requires m.index < |p| && p[m.index].sentence.Jump?
    requires !Defines(p, p[m.index].sentence.target)
    requires m.vars[p[m.index].sentence.variable] != 0
    requires Step(m).Success?
    ensures Step(m).value.0.index == |p| && Step(m).value.1.Some?
  {
  }

  // ---------------------------------------------------------------------
  // Running

  /** `Interpreter.run` after the reset, with at most `fuel` steps:
      the first result a step reports, or `None` when the fuel runs out. */
  function Run(m: Machine, fuel: nat): (r: Result<Option<nat>>)
    requires Ready(m)
    ensures m.version == Current ==> r.Success?
    decreases fuel
  {
    if fuel == 0 then Success(None)
    else
      var stepped :- Step(m);
      if stepped.1.Some? then Success(stepped.1)
      else Run(stepped.0, fuel - 1)
  }

  /** A run that reports a result reports the same one with more fuel. */
  lemma {:induction false} RunMoreFuel(m: Machine, fuel: nat, more: nat)
    requires Ready(m) && fuel <= more
    requires Run(m, fuel).Success? && Run(m, fuel).value.Some?
    ensures Run(m, more) == Run(m, fuel)
    decreases fuel
  {
    assert fuel > 0 && Step(m).Success?;
    var stepped := Step(m).value;
    if stepped.1.None? {
      assert Run(m, fuel) == Run(stepped.0, fuel - 1);
      RunMoreFuel(stepped.0, fuel - 1, more - 1);
      assert Run(m, more) == Run(stepped.0, more - 1);
    }
  }

  predicate NoJumps(p: Program) {
    forall k :: 0 <= k < |p| ==> p[k].sentence.SetOp?
  }

  /** A program without jumps runs once through and halts. */
  lemma {:induction false} StraightLineHalts(m: Machine, fuel: nat)
    requires Ready(m) && m.version == Current && NoJumps(m.program)
    requires fuel >= 1 && fuel >= |m.program| - m.index
    ensures Run(m, fuel).Success? && Run(m, fuel).value.Some?
    decreases |m.program| - m.index
  {
    var stepped := Step(m).value;
    if stepped.1.None? {
      assert m.index < |m.program|;
      assert stepped.0.index == m.index + 1;
      StraightLineHalts(stepped.0, fuel - 1);
    }
  }

  // ---------------------------------------------------------------------
  // Inputs

  predicate NonNegative(x: seq<int>) {
    forall i :: 0 <= i < |x| ==> x[i] >= 0
  }

  /** The value an input sets: `X_i` takes the `i`-th input, from 1. */
  function InputValue(v: Variable, x: seq<int>): nat
    requires NonNegative(x)
  {
    if v.name == X && 1 <= v.index <= |x| then x[v.index - 1] else 0
  }

  /** `Interpreter.reset` (and the start of the oldest `run`): negative
      inputs are refused; every variable is zeroed and then `X_i` takes the
      `i`-th input when the table has it; the index goes back to 0. */
  function Reset(m: Machine, x: seq<int>): (r: Result<Machine>)
    requires Ready(m)
    ensures r.Success? <==> NonNegative(x)
    ensures r.Success? ==> Ready(r.value) && r.value.index == 0 && r.value.program == m.program &&
                           r.value.labels == m.labels && r.value.vars.Keys == m.vars.Keys
  {
    if !NonNegative(x) then Failure("Given negative input values! Only non-negatives in S!")
    else
      var vars := map v | v in m.vars :: InputValue(v, x);
      var vars' := if m.version == Current then vars[Output := 0] else vars;
      Success(m.(index := 0, vars := vars'))
  }

  /** After a reset, `X_i` holds the `i`-th input exactly when the program
      mentions it (the table keeps its variables, so other inputs are
      dropped), and every other variable is 0. */
  lemma ResetInputs(m: Machine, x: seq<int>)
    requires Ready(m) && NonNegative(x)
    ensures forall i :: 0 <= i < |x| && Variable(X, i + 1) in m.vars ==>
              Reset(m, x).value.vars[Variable(X, i + 1)] == x[i]
    ensures forall v :: v in m.vars && !(v.name == X && 1 <= v.index <= |x|) ==>
              Reset(m, x).value.vars[v] == 0
  {
  }

  /** `Interpreter(program).run(*x)`, with at most `fuel` steps. */
  function RunProgram(version: Version, p: Program, x: seq<int>, fuel: nat): (r: Result<Option<nat>>)
    ensures version == Current ==> (r.Success? <==> NonNegative(x))
  {
    var m :- Reset(Load(version, p), x);
    Run(m, fuel)
  }

  // ---------------------------------------------------------------------
  // The oldest interpreter and `Y`

  /** `X1 <- X1 + 1`, a program that never mentions `Y`. */
  function NoOutputProgram(): Program {
    [Instruction(None, SetOp(Variable(X, 1), Increment))]
  }

  /** The oldest interpreter's table lacks `Y` for such a program, so its
      run fails where it should report 0. */
  lemma MissingOutputAsWritten()
    ensures RunProgram(Oldest, NoOutputProgram(), [], 1).Failure?
  {
    var p := NoOutputProgram();
    var m := Load(Oldest, p);
    assert Output !in m.vars by {
      assert Output !in ProgramVariables(p);
    }
    var m' := Reset(m, []).value;
    assert Output !in m'.vars;
    assert Execute(m').index == 1;
  }

  /** The current interpreter always has `Y`, so the same run reports 0. */
  lemma MissingOutputCorrected()
    ensures RunProgram(Current, NoOutputProgram(), [], 1) == Success(Some(0))
  {
    var p := NoOutputProgram();
    var m := Load(Current, p);
    var m' := Reset(m, []).value;
    assert m'.vars[Output] == 0;
    var next := Execute(m');
    assert next.index == 1;
    assert next.vars[Output] == 0;
  }
}
