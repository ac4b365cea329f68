/** The Gödel numbering of S programs: every variable, label, sentence,
    instruction and program has a natural-number code, and decoding turns
    any number back into a syntax value. */
module Codec {
  import opened Wrappers
  import opened Syntax
  import opened Primes
  import opened Pairing
  import opened SequenceCode

  // ---------------------------------------------------------------------
  // Variables: Y is 1, X_i is 2i, Z_i is 2i + 1. Sentences store the code
  // less one, so the decoder reads 0 as Y, odd as X and even as Z.

  function VariableEncode(v: Variable): (r: nat)
    requires ValidVariable(v)
    ensures r >= 1
  {
    match v.name
    case Y => 1
    case X => v.index * 2
    case Z => v.index * 2 + 1
  }

  /** What the source's decoder makes of a variable: a scratch variable
      `Z_i` comes back as `Y_i`. */
  function ScratchAsOutput(v: Variable): Variable {
    if v.name == Z then Variable(Y, v.index) else v
  }

  /** The decoder as the source writes it: the even branch names the
      variable `Y` instead of `Z`, so it decodes as the corrected decoder
      does with every `Z` read as `Y`. */
  function VariableDecodeAsWritten(c: nat): (v: Variable)
    ensures v == ScratchAsOutput(VariableDecode(c))
  {
    if c == 0 then Variable(Y, 1)
    else Variable(if c % 2 != 0 then X else Y, (c - 1) / 2 + 1)
  }

  /** A scratch variable comes back as the output variable with the same
      index, `Y_i`, which is not a valid variable for i >= 2. */
  lemma ScratchDecodesAsOutput(i: int)
    requires i >= 1
    ensures VariableDecodeAsWritten(VariableEncode(Variable(Z, i)) - 1) == Variable(Y, i)
    ensures VariableDecodeAsWritten(VariableEncode(Variable(Z, i)) - 1) != Variable(Z, i)
  {
  }

  /** The decoder with the even branch naming `Z`. */
  function VariableDecode(c: nat): (v: Variable)
    ensures ValidVariable(v)
  {
    if c == 0 then Variable(Y, 1)
    else Variable(if c % 2 != 0 then X else Z, (c - 1) / 2 + 1)
  }

  lemma VariableDecodeEncode(v: Variable)
    requires ValidVariable(v)
    ensures VariableDecode(VariableEncode(v) - 1) == v
  {
  }

  /** Every number is the shifted code of the variable it decodes to. */
  lemma VariableEncodeDecode(c: nat)
    ensures VariableEncode(VariableDecode(c)) - 1 == c
  {
  }

  // ---------------------------------------------------------------------
  // Labels: (index - 1) * 5 + position of the name in A..E, from 1.

  function LabelNameCode(n: LabelName): (r: nat)
    ensures 1 <= r <= 5
  {
    match n
    case A => 1
    case B => 2
    case C => 3
    case D => 4
    case E => 5
  }

  /** The name at position `i` of `ABCDE`. */
  function LabelNameAt(i: nat): (n: LabelName)
    requires i < 5
    ensures LabelNameCode(n) == i + 1
  {
    [A, B, C, D, E][i]
  }

  function LabelEncode(l: Label): (r: nat)
    requires ValidLabel(l)
    ensures r >= 1
  {
    (l.index - 1) * 5 + LabelNameCode(l.name)
  }

  /** `"ABCDE"[(c - 1) % 5]` with index `(c - 1) // 5 + 1`; Dafny's `%` and
      `/` agree with Python's for the positive divisor 5. */
  function LabelDecode(c: nat): (l: Label)
    ensures c >= 1 ==> ValidLabel(l)
  {
    Label(LabelNameAt((c - 1) % 5), (c - 1) / 5 + 1)
  }

  lemma LabelDecodeEncode(l: Label)
    requires ValidLabel(l)
    ensures LabelDecode(LabelEncode(l)) == l
  {
    var k := LabelNameCode(l.name) - 1;
    DivModUnique(LabelEncode(l) - 1, 5, l.index - 1, k);
    assert LabelNameCode(LabelNameAt(k)) == LabelNameCode(l.name);
  }

  lemma LabelEncodeDecode(c: nat)
    requires c >= 1
    ensures LabelEncode(LabelDecode(c)) == c
  {
  }

  /** The two root copies multiply the index by `ord("E") - ord("A")`,
      which is 4, while decoding still divides by 5. */
  function LegacyLabelEncodeAsWritten(l: Label): (r: int)
    requires ValidLabel(l)
    ensures l.index == 1 ==> r == LabelEncode(l)
  {
    (l.index - 1) * 4 + LabelNameCode(l.name)
  }

  /** `E1` and `A2` get the same legacy code 5, which decodes to `E1`. */
  lemma LegacyLabelsCollide()
    ensures LegacyLabelEncodeAsWritten(Label(E, 1)) == 5
    ensures LegacyLabelEncodeAsWritten(Label(A, 2)) == 5
    ensures LabelDecode(5) != Label(A, 2)
  {
  }

  /** With the multiplier 5, as in the packaged copy, distinct labels get
      distinct codes. */
  lemma LabelEncodeInjective(l: Label, m: Label)
    requires ValidLabel(l) && ValidLabel(m)
    requires LabelEncode(l) == LabelEncode(m)
    ensures l == m
  {
    LabelDecodeEncode(l);
    LabelDecodeEncode(m);
  }

  // ---------------------------------------------------------------------
  // Sentences: the pair <a, v - 1> where a is the opcode 0, 1, 2 of a
  // set-operation or the label code plus 2 of a jump.

  function OpCode(op: Op): (r: nat)
    ensures r <= 2
  {
    match op
    case NoOp => 0
    case Increment => 1
    case Decrement => 2
  }

  function OpOfCode(a: nat): (op: Op)
    requires a <= 2
    ensures OpCode(op) == a
  {
    if a == 0 then NoOp else if a == 1 then Increment else Decrement
  }

  /** The pair of numbers a sentence is coded by. */
  function SentenceRepr(s: Sentence): (r: (nat, nat))
    requires ValidSentence(s)
    ensures s.SetOp? <==> r.0 <= 2
  {
    (match s
     case SetOp(_, op) => OpCode(op)
     case Jump(_, target) => LabelEncode(target) + 2,
     VariableEncode(s.variable) - 1)
  }

  /** The code of a sentence is the pair code of its opcode and shifted
      variable code: decoding the pair gives them back. */
  function SentenceEncode(s: Sentence): (r: nat)
    requires ValidSentence(s)
    ensures Unpair(r) == SentenceRepr(s)
  {
    UnpairPair(SentenceRepr(s).0, SentenceRepr(s).1);
    EncodePair(SentenceRepr(s).0, SentenceRepr(s).1)
  }

  /** The exponent of 2 in `n + 1` selects a jump when above 2. */
  function SentenceDecode(n: nat): (s: Sentence)
    ensures ValidSentence(s)
  {
    var (a, b) := Unpair(n);
    if a > 2 then Jump(VariableDecode(b), LabelDecode(a - 2))
    else SetOp(VariableDecode(b), OpOfCode(a))
  }

  lemma SentenceDecodeEncode(s: Sentence)
    requires ValidSentence(s)
    ensures SentenceDecode(SentenceEncode(s)) == s
  {
    var (a, b) := SentenceRepr(s);
    UnpairPair(a, b);
    VariableDecodeEncode(s.variable);
    if s.Jump? {
      LabelDecodeEncode(s.target);
    }
    SentenceDecodeParts(SentenceEncode(s), a, b, s);
  }

  /** A code whose pair holds the parts of `s` decodes to `s`. */
  lemma SentenceDecodeParts(n: nat, a: nat, b: nat, s: Sentence)
    requires Unpair(n) == (a, b) && VariableDecode(b) == s.variable
    requires s.SetOp? ==> a <= 2 && OpCode(s.op) == a
    requires s.Jump? ==> a > 2 && LabelDecode(a - 2) == s.target
    ensures SentenceDecode(n) == s
  {
  }

  lemma SentenceEncodeDecode(n: nat)
    ensures SentenceEncode(SentenceDecode(n)) == n
  {
    var (a, b) := Unpair(n);
    PairUnpair(n);
    VariableEncodeDecode(b);
    if a > 2 {
      LabelEncodeDecode(a - 2);
    }
  }

  /** The decoder's variant test agrees with the sentence's form. */
  lemma SentenceVariantByExponent(s: Sentence)
    requires ValidSentence(s)
    ensures Unpair(SentenceEncode(s)).0 > 2 <==> s.Jump?
  {
    UnpairPair(SentenceRepr(s).0, SentenceRepr(s).1);
  }

  // ---------------------------------------------------------------------
  // Instructions: the pair <label code or 0, sentence code>.

  function LineLabelCode(l: Option<Label>): (r: nat)
    requires l.Some? ==> ValidLabel(l.value)
    ensures r == 0 <==> l.None?
  {
    if l.Some? then LabelEncode(l.value) else 0
  }

  /** The code of an instruction is the pair code of its label code (0
      without a label) and its sentence code. */
  function InstructionEncode(i: Instruction): (r: nat)
    requires ValidInstruction(i)
    ensures Unpair(r) == (LineLabelCode(i.lineLabel), SentenceEncode(i.sentence))
  {
    UnpairPair(LineLabelCode(i.lineLabel), SentenceEncode(i.sentence));
    EncodePair(LineLabelCode(i.lineLabel), SentenceEncode(i.sentence))
  }

  /** A label exactly when 2 divides `n + 1`. */
  function InstructionDecode(n: nat): (i: Instruction)
    ensures ValidInstruction(i)
  {
    var (a, b) := Unpair(n);
    Instruction(if a > 0 then Some(LabelDecode(a)) else None, SentenceDecode(b))
  }

  lemma InstructionDecodeEncode(i: Instruction)
    requires ValidInstruction(i)
    ensures InstructionDecode(InstructionEncode(i)) == i
  {
    UnpairPair(LineLabelCode(i.lineLabel), SentenceEncode(i.sentence));
    SentenceDecodeEncode(i.sentence);
    if i.lineLabel.Some? {
      LabelDecodeEncode(i.lineLabel.value);
    }
  }

  lemma InstructionEncodeDecode(n: nat)
    ensures InstructionEncode(InstructionDecode(n)) == n
  {
    var (a, b) := Unpair(n);
    PairUnpair(n);
    SentenceEncodeDecode(b);
    if a > 0 {
      LabelEncodeDecode(a);
    }
  }

  /** The outer exponent of 2 is 0 exactly for an unlabelled instruction. */
  lemma InstructionLabelByExponent(i: Instruction)
    requires ValidInstruction(i)
    ensures Unpair(InstructionEncode(i)).0 == 0 <==> i.lineLabel.None?
  {
    UnpairPair(LineLabelCode(i.lineLabel), SentenceEncode(i.sentence));
  }

  /** Code 0 is the unlabelled `Y <- Y` and nothing else. */
  lemma InstructionCodeZero(i: Instruction)
    requires ValidInstruction(i)
    ensures InstructionEncode(i) == 0 <==> IsBareOutputNoOp(i)
  {
    var l, s := LineLabelCode(i.lineLabel), i.sentence;
    var (a, b) := SentenceRepr(s);
    assert InstructionEncode(i) == 0 <==> l == 0 && SentenceEncode(s) == 0 by {
      EncodePairZero(l, SentenceEncode(s));
    }
    assert SentenceEncode(s) == 0 <==> a == 0 && b == 0 by {
      EncodePairZero(a, b);
    }
    assert a == 0 <==> s.SetOp? && s.op == NoOp;
    assert b == 0 <==> s.variable.name == Y;
  }

  lemma NonzeroCodeNotBare(i: Instruction)
    requires ValidInstruction(i) && InstructionEncode(i) > 0
    ensures !IsBareOutputNoOp(i)
  {
    InstructionCodeZero(i);
  }

  // ---------------------------------------------------------------------
  // Programs: the sequence code of the instruction codes, less one.

  function InstructionCodes(p: Program): (r: seq<nat>)
    requires ValidProgram(p)
    ensures |r| == |p|
    ensures forall k :: 0 <= k < |p| ==> r[k] == InstructionEncode(p[k])
  {
    if |p| == 0 then [] else InstructionCodes(p[..|p| - 1]) + [InstructionEncode(p[|p| - 1])]
  }

  function ProgramEncode(p: Program): nat
    requires ValidProgram(p)
  {
    EncodeList(InstructionCodes(p)) - 1
  }

  /** The code of a program, plus one, has the code of its k-th
      instruction as the exponent of the k-th prime, and no other prime
      factor. */
  lemma ProgramEncodeExponents(p: Program)
    requires ValidProgram(p)
    ensures forall k: nat :: Multiplicity(ProgramEncode(p) + 1, NthPrime(k)) == if k < |p| then InstructionEncode(p[k]) else 0
  {
    ExponentsOfList(InstructionCodes(p));
  }

  lemma ExponentsOfList(l: seq<nat>)
    ensures forall k: nat :: Multiplicity(EncodeList(l), NthPrime(k)) == if k < |l| then l[k] else 0
  {
    forall k: nat
      ensures Multiplicity(EncodeList(l), NthPrime(k)) == if k < |l| then l[k] else 0
    {
      MultiplicityEncodeList(l, k);
    }
  }

  function DecodeInstructions(codes: seq<nat>): (p: Program)
    ensures |p| == |codes|
    ensures forall k :: 0 <= k < |p| ==> p[k] == InstructionDecode(codes[k])
  {
    seq(|codes|, k requires 0 <= k < |codes| => InstructionDecode(codes[k]))
  }

  /** A non-zero last code decodes to a last instruction that is not the
      unlabelled `Y <- Y`. */
  lemma DecodedConvention(codes: seq<nat>)
    requires |codes| == 0 || codes[|codes| - 1] > 0
    ensures RespectsConvention(DecodeInstructions(codes))
  {
    if |codes| > 0 {
      var c := codes[|codes| - 1];
      var last := InstructionDecode(c);
      assert InstructionEncode(last) == c by {
        InstructionEncodeDecode(c);
      }
      NonzeroCodeNotBare(last);
      assert DecodeInstructions(codes)[|codes| - 1] == last;
    }
  }

  /** The instructions at the exponents of the primes up to the largest
      prime factor of `n + 1`; `0` decodes to the empty program. */
  function ProgramDecode(n: nat): (p: Program)
    ensures ValidProgram(p) && RespectsConvention(p)
  {
    DecodeListLast(n + 1);
    DecodedConvention(DecodeList(n + 1));
    DecodeInstructions(DecodeList(n + 1))
  }

  /** The program decoder as the source writes it: the largest prime
      factor of `n + 1` is taken with `max`, which fails on the empty
      factorisation of `1`, so `0` has no decoding; every other code is
      decoded instruction by instruction with the source's variable
      decoder. */
  function ProgramDecodeAsWritten(n: nat): (r: Result<Program>)
    ensures r.Success? <==> n > 0
    ensures r.Success? ==> r.value == ProgramScratchAsOutput(ProgramDecode(n))
  {
    if n + 1 == 1 then Failure("max() arg is an empty sequence")
    else Success(DecodeInstructionsAsWritten(DecodeList(n + 1)))
  }

  /** The empty program encodes to 0, which the source cannot decode. */
  lemma EmptyProgramDoesNotDecode()
    ensures ProgramEncode([]) == 0
    ensures ProgramDecodeAsWritten(ProgramEncode([])).Failure?
    ensures ProgramDecode(ProgramEncode([])) == []
  {
  }

  lemma CodesOfDecoded(codes: seq<nat>)
    ensures InstructionCodes(DecodeInstructions(codes)) == codes
  {
    var p := DecodeInstructions(codes);
    forall k | 0 <= k < |codes|
      ensures InstructionCodes(p)[k] == codes[k]
    {
      var i := InstructionDecode(codes[k]);
      assert p[k] == i;
      InstructionEncodeDecode(codes[k]);
    }
  }

  lemma DecodedCodes(p: Program)
    requires ValidProgram(p)
    ensures DecodeInstructions(InstructionCodes(p)) == p
  {
    var codes := InstructionCodes(p);
    forall k | 0 <= k < |p|
      ensures DecodeInstructions(codes)[k] == p[k]
    {
      assert codes[k] == InstructionEncode(p[k]);
      InstructionDecodeEncode(p[k]);
    }
  }

  lemma CodesOfDecodedProgram(n: nat)
    ensures InstructionCodes(ProgramDecode(n)) == DecodeList(n + 1)
  {
    CodesOfDecoded(DecodeList(n + 1));
  }

  /** Every number is the code of the program it decodes to. */
  lemma ProgramEncodeDecode(n: nat)
    ensures ProgramEncode(ProgramDecode(n)) == n
  {
    CodesOfDecodedProgram(n);
    EncodeDecodeList(n + 1);
  }

  lemma DecodeOfEncodedProgram(p: Program)
    requires ValidProgram(p)
    ensures ProgramDecode(ProgramEncode(p)) ==
            DecodeInstructions(StripTrailingZeros(InstructionCodes(p)))
  {
    DecodeEncodeList(InstructionCodes(p));
  }

  /** The code sequence of a program ends in zero exactly when the program
      breaks the convention. */
  lemma TrailingZeroCode(p: Program)
    requires ValidProgram(p)
    ensures StripTrailingZeros(InstructionCodes(p)) == InstructionCodes(p) <==> RespectsConvention(p)
  {
    var codes := InstructionCodes(p);
    StripTrailingZerosFixed(codes);
    if |p| > 0 {
      var last := p[|p| - 1];
      assert codes[|p| - 1] == InstructionEncode(last);
      assert InstructionEncode(last) == 0 <==> IsBareOutputNoOp(last) by {
        InstructionCodeZero(last);
      }
    }
  }

  /** Decoding the code of a valid program gives the program back exactly
      when it does not end with an unlabelled `Y <- Y`, whose code 0 is a
      trailing zero exponent and vanishes. */
  lemma ProgramDecodeEncode(p: Program)
    requires ValidProgram(p)
    ensures ProgramDecode(ProgramEncode(p)) == p <==> RespectsConvention(p)
  {
    var stripped := StripTrailingZeros(InstructionCodes(p));
    DecodeOfEncodedProgram(p);
    TrailingZeroCode(p);
    if RespectsConvention(p) {
      DecodedCodes(p);
    } else {
      assert |DecodeInstructions(stripped)| < |p|;
    }
  }

  // ---------------------------------------------------------------------
  // The source's decoding chain, built on `VariableDecodeAsWritten`

  function SentenceScratchAsOutput(s: Sentence): Sentence {
    match s
    case SetOp(v, op) => SetOp(ScratchAsOutput(v), op)
    case Jump(v, l) => Jump(ScratchAsOutput(v), l)
  }

  function InstructionScratchAsOutput(i: Instruction): Instruction {
    Instruction(i.lineLabel, SentenceScratchAsOutput(i.sentence))
  }

  function ProgramScratchAsOutput(p: Program): (r: Program)
    ensures |r| == |p|
    ensures forall k :: 0 <= k < |p| ==> r[k] == InstructionScratchAsOutput(p[k])
  {
    seq(|p|, k requires 0 <= k < |p| => InstructionScratchAsOutput(p[k]))
  }

  /** Some instruction of the program is on a scratch variable. */
  predicate MentionsScratch(p: Program) {
    exists k :: 0 <= k < |p| && p[k].sentence.variable.name == Z
  }

  /** `Sentence.decode` as written: the corrected decoding with every `Z`
      read as `Y`. */
  function SentenceDecodeAsWritten(n: nat): (s: Sentence)
    ensures s == SentenceScratchAsOutput(SentenceDecode(n))
  {
    var (a, b) := Unpair(n);
    if a > 2 then Jump(VariableDecodeAsWritten(b), LabelDecode(a - 2))
    else SetOp(VariableDecodeAsWritten(b), OpOfCode(a))
  }

  /** `Instruction.decode` as written. */
  function InstructionDecodeAsWritten(n: nat): (i: Instruction)
    ensures i == InstructionScratchAsOutput(InstructionDecode(n))
  {
    var (a, b) := Unpair(n);
    Instruction(if a > 0 then Some(LabelDecode(a)) else None, SentenceDecodeAsWritten(b))
  }

  function DecodeInstructionsAsWritten(codes: seq<nat>): (p: Program)
    ensures |p| == |codes|
    ensures forall k :: 0 <= k < |p| ==> p[k] == InstructionDecodeAsWritten(codes[k])
  {
    seq(|codes|, k requires 0 <= k < |codes| => InstructionDecodeAsWritten(codes[k]))
  }

  /** As written, a sentence comes back with its scratch variable read as
      the output variable. */
  lemma SentenceDecodeEncodeAsWritten(s: Sentence)
    requires ValidSentence(s)
    ensures SentenceDecodeAsWritten(SentenceEncode(s)) == SentenceScratchAsOutput(s)
  {
    SentenceDecodeEncode(s);
  }

  lemma InstructionDecodeEncodeAsWritten(i: Instruction)
    requires ValidInstruction(i)
    ensures InstructionDecodeAsWritten(InstructionEncode(i)) == InstructionScratchAsOutput(i)
  {
    InstructionDecodeEncode(i);
  }

  /** As written, decoding the code of a non-empty program that keeps the
      convention gives the program with every `Z` read as `Y`: it comes
      back unchanged exactly when it mentions no scratch variable. */
  lemma ProgramDecodeEncodeAsWritten(p: Program)
    requires ValidProgram(p) && RespectsConvention(p) && |p| > 0
    ensures ProgramDecodeAsWritten(ProgramEncode(p)) == Success(ProgramScratchAsOutput(p))
    ensures ProgramDecodeAsWritten(ProgramEncode(p)) == Success(p) <==> !MentionsScratch(p)
  {
    var n := ProgramEncode(p);
    assert ProgramDecode(n) == p by {
      ProgramDecodeEncode(p);
    }
    assert n != 0 by {
      EmptyProgramDoesNotDecode();
    }
    ScratchAsOutputFixed(p);
  }

  /** Reading every `Z` as `Y` leaves a program alone exactly when it has
      no scratch variable. */
  lemma ScratchAsOutputFixed(p: Program)
    ensures ProgramScratchAsOutput(p) == p <==> !MentionsScratch(p)
  {
    if MentionsScratch(p) {
      var k :| 0 <= k < |p| && p[k].sentence.variable.name == Z;
      assert ProgramScratchAsOutput(p)[k].sentence.variable.name == Y;
    } else {
      assert ProgramScratchAsOutput(p) == p;
    }
  }

  /** The code of `Z1 <- Z1 + 1` decodes, as written, to `Y <- Y + 1`. */
  lemma ScratchProgramDecodesAsOutput()
    ensures ProgramDecodeAsWritten(ProgramEncode([Instruction(None, SetOp(Variable(Z, 1), Increment))])) ==
            Success([Instruction(None, SetOp(Variable(Y, 1), Increment))])
  {
    SingleInstructionAsWritten(Instruction(None, SetOp(Variable(Z, 1), Increment)));
  }

  lemma SingleInstructionAsWritten(i: Instruction)
    requires ValidInstruction(i) && !IsBareOutputNoOp(i)
    ensures ProgramDecodeAsWritten(ProgramEncode([i])) == Success([InstructionScratchAsOutput(i)])
  {
    ProgramDecodeEncodeAsWritten([i]);
    assert ProgramScratchAsOutput([i]) == [InstructionScratchAsOutput(i)];
  }
}
