/** The abstract syntax of the S language: variables, labels, sentences,
    instructions and programs, as immutable values compared structurally. */
module Syntax {
  import opened Wrappers

  /** The three variable families: input `X`, the single output `Y`, scratch `Z`. */
  datatype VarName = X | Y | Z

  /** `index` is an `int` because decoding can build any index the arithmetic
      yields; `ValidVariable` says which values parsing produces. */
  datatype Variable = Variable(name: VarName, index: int)

  /** The five label names. */
  datatype LabelName = A | B | C | D | E

  datatype Label = Label(name: LabelName, index: int)

  /** The three set-operations, in the order of their numeric codes 0, 1, 2. */
  datatype Op = NoOp | Increment | Decrement

  /** A sentence is either `V <- V [+/- 1]` or `IF V != 0 GOTO L`. */
  datatype Sentence =
    | SetOp(variable: Variable, op: Op)
    | Jump(variable: Variable, target: Label)

  datatype Instruction = Instruction(lineLabel: Option<Label>, sentence: Sentence)

  type Program = seq<Instruction>

  /** The output variable `Y`, the only `Y` there is. */
  const Output := Variable(Y, 1)

  predicate ValidVariable(v: Variable) {
    v.index >= 1 && (v.name == Y ==> v.index == 1)
  }

  predicate ValidLabel(l: Label) {
    l.index >= 1
  }

  predicate ValidSentence(s: Sentence) {
    ValidVariable(s.variable) && (s.Jump? ==> ValidLabel(s.target))
  }

  predicate ValidInstruction(i: Instruction) {
    ValidSentence(i.sentence) && (i.lineLabel.Some? ==> ValidLabel(i.lineLabel.value))
  }

  predicate ValidProgram(p: Program) {
    forall k :: 0 <= k < |p| ==> ValidInstruction(p[k])
  }

  /** The unlabelled `Y <- Y` that no assembled program may end with. The
      check looks at the family name only, as the source does. */
  predicate IsBareOutputNoOp(i: Instruction) {
    i.lineLabel.None? && i.sentence.SetOp? && i.sentence.variable.name == Y && i.sentence.op == NoOp
  }

  /** The whole-program convention: a non-empty program does not end with
      an unlabelled `Y <- Y`. */
  predicate RespectsConvention(p: Program) {
    |p| == 0 || !IsBareOutputNoOp(p[|p| - 1])
  }

  /** The labels an instruction mentions: its own label and a jump target. */
  function InstructionLabels(i: Instruction): set<Label> {
    (if i.lineLabel.Some? then {i.lineLabel.value} else {}) +
    (if i.sentence.Jump? then {i.sentence.target} else {})
  }

  /** Every variable a program mentions. */
  function ProgramVariables(p: Program): set<Variable> {
    set k | 0 <= k < |p| :: p[k].sentence.variable
  }

  /** Every label a program defines or jumps to. */
  function ProgramLabels(p: Program): set<Label> {
    set k, l | 0 <= k < |p| && l in InstructionLabels(p[k]) :: l
  }
}
