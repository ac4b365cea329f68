# S language: compiler, sugars, Gödel codec and interpreter

This project models the core of `s_interpreter`, a toolchain for the S
register-machine language, and proves properties of that model.

**The S language.** A program is a list of instructions. Each instruction
has an optional label `[L]` and one sentence:
- `V <- V`, `V <- V + 1` or `V <- V - 1`, on a variable `X_i`, `Y` or `Z_i`;
- `IF V != 0 GOTO L`.

Labels are `A_i` to `E_i`. Values are natural numbers, and a decrement
stops at 0.

**The toolchain.**
- **Compiler.** Reads instruction lines (`Variable.compile`,
  `Label.compile`, `Sentence.compile`, `Instruction.compile`) and prints
  them back (`__str__`).
- **Syntactic sugars.** These are macros: a usage line with typed holes,
  and a body that may contain `{REPEAT N}` blocks.
- **Assembler.** `Program.compile` reads each line as an instruction. If a
  line is not an instruction, it tries the sugars, compiles each
  invocation into a hygienically renamed body, and splices the result in
  place.
- **Slang files.** `compile_slang_file` cuts a `.slang` file into `> title`
  sections: sugar sections first, then `MAIN`.
- **Gödel numbering.** Programs are numbered with the pairing
  `2^x (2y+1) - 1` and the prime-power sequence code.
- **Interpreter.** Runs a program as a state machine.

**Three copies.** The repository holds three copies of the compiler:
- the packaged `src/s_interpreter/compiler.py`;
- the older root `compiler.py`, which `interpreter.py` loads;
- the oldest root `s_compiler.py`, with its own `s_interpreter.py`.

They differ in small but observable ways. The model keeps one set of
datatypes. The reading and printing of lines, the assembler and the sugar
engine select the copy with a `Dialect` (`Packaged | Legacy | Oldest`).
The Gödel codec follows the packaged copy only, with the root copies'
label code kept beside it as `Codec.LegacyLabelEncodeAsWritten`. The
interpreter is selected with a `Version` (`Current | Oldest`).

**Two expansions.** The sugar engine takes an `Expansion` (`AsWritten |
Repaired`). `AsWritten` follows the source. `Repaired` fixes two slips
listed under Findings: the REPEAT nesting, and the lookup of shields in
the packaged copy. The Gödel codec keeps both chains side by side: the
`...AsWritten` decoders follow the source, and the plain decoders are the
corrected ones.

**Modules:**

| Module | Contents |
|---|---|
| `Wrappers` | `Option` and `Result`. |
| `Syntax` | The abstract syntax, and the validity and `Y <- Y` convention predicates. |
| `Primes` | Divisibility, the n-th prime, prime multiplicity, and unique factorisation in the form the decoder needs. This replaces the sympy calls. |
| `Pairing` | `encode_pair` and its inverse. |
| `SequenceCode` | `encode_list` and its inverse. |
| `Codec` | `encode`/`decode` for every entity. |
| `Lines` | `str.splitlines`, `str.strip` and `split("#")[0]`. |
| `Text` | The line grammar as hand-written scanners, the printers, and the print/parse round trip. |
| `Listing` | `str(program)` and reading it back with `readlines`. |
| `Macro` | `SyntacticSugar`: argument table, REPEAT checks, REPEAT unrolling, shields, name generators, `_ProgramFixer`. |
| `Assembler` | `Program.compile`, `SyntacticSugar.compile`, and the oldest macro-free `Program.compile`. |
| `Slang` | The section logic of `compile_slang_file`. |
| `Interpreter` | `Interpreter` of `interpreter.py` and of `s_interpreter.py`. |

## Model

| member | source | states |
|---|---|---|
| Pairing.PairUnpair | src/s_interpreter/compiler.py:11-12 | Every number z is the pair code of its decoding: the exponent of 2 in z+1, and half of the odd part minus one. |
| Pairing.UnpairPair | src/s_interpreter/compiler.py:11-12 | Decoding `encode_pair((x, y))` gives back (x, y). |
| Pairing.EncodePairInjective | src/s_interpreter/compiler.py:11-12 | Distinct pairs have distinct codes. |
| Pairing.EncodePairZero | src/s_interpreter/compiler.py:11-12 | Code 0 belongs to the pair (0, 0) and to no other pair. |
| Primes.NthPrime | src/s_interpreter/compiler.py:15-25 | The k-th prime (from 0) is a prime of at least k + 2. This is the prime `encode_list` raises to the k-th entry. |
| Primes.NthPrimeIncreasing | src/s_interpreter/compiler.py:15-25 | The primes are listed in increasing order, as `primerange` lists them. |
| Primes.PrimeIsNth | src/s_interpreter/compiler.py:416-426 | Every prime is in the list, so the decoder's factorisation misses no prime. |
| Primes.Multiplicity | src/s_interpreter/compiler.py:416-426 | A prime's exponent in n is positive exactly when the prime divides a positive n. |
| Primes.Euclid | src/s_interpreter/compiler.py:15-25 | A prime dividing a product divides one of the factors. |
| Primes.SameMultiplicitiesEqual | src/s_interpreter/compiler.py:416-426 | Two positive numbers with the same exponent at every prime are equal. This is unique factorisation, on which decoding by `factorint` rests. |
| SequenceCode.EncodeList | src/s_interpreter/compiler.py:15-25 | The sequence code is positive; the empty list codes to 1. |
| SequenceCode.MultiplicityEncodeList | src/s_interpreter/compiler.py:15-25 | The exponent of the i-th prime in `encode_list(l)` is `l[i]`, and 0 beyond the list. |
| SequenceCode.EncodeListTrailingZero | src/s_interpreter/compiler.py:15-25 | Appending a zero exponent does not change the code. |
| SequenceCode.DecodeListAt | src/s_interpreter/compiler.py:416-426 | Each entry of the decoded list is the exponent of its prime in m. |
| SequenceCode.DecodeListBeyond | src/s_interpreter/compiler.py:416-426 | Every prime after the decoded list has exponent 0 in m: the list reaches the largest prime factor. |
| SequenceCode.DecodeListLast | src/s_interpreter/compiler.py:416-426 | The decoded list is empty or ends in a positive exponent. |
| SequenceCode.EncodeDecodeList | src/s_interpreter/compiler.py:416-426 | Every positive number is the code of the list it decodes to. |
| SequenceCode.DecodeEncodeList | src/s_interpreter/compiler.py:15-25 | Decoding a code gives back the list without its trailing zeros. |
| SequenceCode.StripTrailingZeros | src/s_interpreter/compiler.py:15-25 | The result is a prefix of the list that ends in a positive entry or is empty, and only zeros were removed. |
| Codec.VariableEncode | src/s_interpreter/compiler.py:50-56 | A valid variable's code is at least 1. |
| Codec.VariableDecode | src/s_interpreter/compiler.py:59-71 | The corrected decoder, whose even branch names `Z`, always yields a valid variable. |
| Codec.VariableDecodeEncode | src/s_interpreter/compiler.py:50-71 | Corrected chain: decoding `encode() - 1` gives back every valid variable, `Z` variables included. |
| Codec.VariableEncodeDecode | src/s_interpreter/compiler.py:50-71 | Corrected chain: every number n is `encode() - 1` of the variable it decodes to. |
| Codec.VariableDecodeAsWritten | src/s_interpreter/compiler.py:59-71 | As written, the decoder gives what the corrected one gives, except that a `Z` comes back as `Y` with the same index. |
| Codec.ScratchDecodesAsOutput | src/s_interpreter/compiler.py:59-71 | As written, `Z_i` decodes to `Y_i`, so scratch variables do not round-trip. |
| Codec.LabelNameAt | src/s_interpreter/compiler.py:98-102 | Position i of `ABCDE` is the name with letter code i+1. |
| Codec.LabelEncode | src/s_interpreter/compiler.py:94-95 | A valid label's code is at least 1. |
| Codec.LabelDecode | src/s_interpreter/compiler.py:98-102 | Every code of at least 1 decodes to a valid label. |
| Codec.LabelDecodeEncode | src/s_interpreter/compiler.py:94-102 | `Label.decode(l.encode()) == l` for every valid label. |
| Codec.LabelEncodeDecode | src/s_interpreter/compiler.py:94-102 | Every code of at least 1 is the code of the label it decodes to. |
| Codec.LabelEncodeInjective | src/s_interpreter/compiler.py:94-95 | With multiplier 5, distinct labels get distinct codes. |
| Codec.LegacyLabelEncodeAsWritten | compiler.py:96-97 | The root copies' code agrees with the packaged one on labels with index 1. |
| Codec.LegacyLabelsCollide | compiler.py:96-104 | As written in the root copies, `E1` and `A2` both encode to 5, which decodes to `E1`. |
| Codec.OpOfCode | src/s_interpreter/compiler.py:128-130 | Each set-operation code 0 to 2 belongs to exactly the operation it names. |
| Codec.SentenceRepr | src/s_interpreter/compiler.py:190-197 | The first coordinate is at most 2 exactly for a set-operation; a jump's is `label.encode() + 2`, so above 2. |
| Codec.SentenceEncode | src/s_interpreter/compiler.py:199-200 | The sentence code is the pair code of its representation: unpairing it gives the opcode and the shifted variable code back. |
| Codec.SentenceVariantByExponent | src/s_interpreter/compiler.py:203-219 | The decoder's test "exponent of 2 above 2" selects a jump exactly for jumps. |
| Codec.SentenceDecode | src/s_interpreter/compiler.py:203-219 | Corrected chain: every number decodes to a valid sentence. |
| Codec.SentenceDecodeEncode | src/s_interpreter/compiler.py:190-219 | Corrected chain: decoding a valid sentence's code gives the sentence back. |
| Codec.SentenceEncodeDecode | src/s_interpreter/compiler.py:190-219 | Corrected chain: every number is the code of the sentence it decodes to. |
| Codec.SentenceDecodeAsWritten | src/s_interpreter/compiler.py:203-219 | As written, a sentence decodes as in the corrected chain, with its `Z` variable read as `Y`. |
| Codec.SentenceDecodeEncodeAsWritten | src/s_interpreter/compiler.py:190-219 | As written, a valid sentence comes back with its scratch variable read as the output variable. |
| Codec.LineLabelCode | src/s_interpreter/compiler.py:246-253 | The label coordinate is 0 exactly for an unlabelled instruction. |
| Codec.InstructionEncode | src/s_interpreter/compiler.py:246-257 | The instruction code is the pair code of the label code and the sentence code: unpairing it gives both back. |
| Codec.InstructionLabelByExponent | src/s_interpreter/compiler.py:260-271 | The outer exponent of 2 is 0 exactly when the instruction is unlabelled. |
| Codec.InstructionDecode | src/s_interpreter/compiler.py:260-271 | Corrected chain: every number decodes to a valid instruction. |
| Codec.InstructionDecodeEncode | src/s_interpreter/compiler.py:246-271 | Corrected chain: decoding a valid instruction's code gives it back. |
| Codec.InstructionEncodeDecode | src/s_interpreter/compiler.py:246-271 | Corrected chain: every number is the code of the instruction it decodes to. |
| Codec.InstructionDecodeAsWritten | src/s_interpreter/compiler.py:260-271 | As written, an instruction decodes as in the corrected chain, with its `Z` variable read as `Y`. |
| Codec.InstructionDecodeEncodeAsWritten | src/s_interpreter/compiler.py:246-271 | As written, a valid instruction comes back with its scratch variable read as the output variable. |
| Codec.InstructionCodeZero | src/s_interpreter/compiler.py:246-257 | Code 0 belongs to the unlabelled `Y <- Y` and to no other instruction. |
| Codec.InstructionCodes | src/s_interpreter/compiler.py:406-413 | The program's exponent list holds each instruction's code, in order. |
| Codec.ProgramEncodeExponents | src/s_interpreter/compiler.py:406-413 | One plus a program's code has the code of its k-th instruction as the exponent of the k-th prime, and no other prime factor. |
| Codec.DecodeInstructions | src/s_interpreter/compiler.py:416-426 | Decoding a code list decodes each code in place. |
| Codec.DecodedConvention | src/s_interpreter/compiler.py:416-426 | A code list that ends in a non-zero code decodes to a program that keeps the `Y <- Y` convention. |
| Codec.ProgramDecode | src/s_interpreter/compiler.py:416-426 | Corrected chain: the decoder yields a valid program that keeps the convention, for every number, 0 included. |
| Codec.EmptyProgramDoesNotDecode | src/s_interpreter/compiler.py:416-426 | The empty program encodes to 0. The decoder as written fails on 0. The corrected decoder gives the empty program. |
| Codec.ProgramEncodeDecode | src/s_interpreter/compiler.py:406-426 | Corrected chain: every number is the code of the program it decodes to. |
| Codec.DecodeOfEncodedProgram | src/s_interpreter/compiler.py:406-426 | Corrected chain: decoding a program's code gives the instructions whose codes remain once trailing zero codes are removed. |
| Codec.TrailingZeroCode | src/s_interpreter/compiler.py:406-413 | A program's code list ends in 0 exactly when the program breaks the convention. |
| Codec.ProgramDecodeEncode | src/s_interpreter/compiler.py:406-426 | Corrected chain: `Program.decode(p.encode()) == p` exactly when p keeps the `Y <- Y` convention. |
| Codec.ProgramDecodeAsWritten | src/s_interpreter/compiler.py:416-426 | As written, decoding fails exactly on 0. Any other number decodes as in the corrected chain, with every `Z` read as `Y`. |
| Codec.ProgramDecodeEncodeAsWritten | src/s_interpreter/compiler.py:406-426 | As written, a non-empty program that keeps the convention decodes to itself with every `Z` read as `Y`. It comes back unchanged exactly when it mentions no scratch variable. |
| Codec.ScratchAsOutputFixed | src/s_interpreter/compiler.py:59-71 | Reading every `Z` as `Y` leaves a program alone exactly when it has no scratch variable. |
| Codec.ScratchProgramDecodesAsOutput | src/s_interpreter/compiler.py:406-426 | As written, the code of `Z1 <- Z1 + 1` decodes to `Y <- Y + 1`. |
| Lines.SplitLinesExact | s_compiler.py:246-248 | `str.splitlines()` returns exactly the lines between the text's breaks, in order. A break is `\r\n` or one break character. There is no empty line after a final break. |
| Lines.SplitJoinLines | s_compiler.py:246-248 | Splitting lines joined with `\n` gives the lines back. |
| Lines.JoinSplitLines | s_compiler.py:246-248 | Text whose only breaks are `\n`, and which ends in one, is rebuilt by joining its split lines. |
| Lines.TrimEnd | src/s_interpreter/compiler.py:780-784 | The text without its trailing whitespace: a prefix ending in a non-space, followed only by whitespace. |
| Lines.StripParts | src/s_interpreter/compiler.py:780-784 | `strip()` leaves no whitespace at either end, and the text is whitespace, the stripped text, then whitespace. |
| Lines.StripStripped | src/s_interpreter/compiler.py:780-784 | Stripping text that has no whitespace at its ends leaves it unchanged. |
| Lines.BeforeHash | src/s_interpreter/compiler.py:780-784 | `split("#")[0]` is the prefix before the first `#`. |
| Lines.BeforeHashNone | src/s_interpreter/compiler.py:780-784 | Text without `#` is kept whole. |
| Text.TrimStartSplit | src/s_interpreter/compiler.py:32-33 | `\s*` drops only whitespace, and keeps the rest of the text, which is empty or starts with a non-space. |
| Text.DigitsValueNatDigits | src/s_interpreter/compiler.py:73-74 | `int(str(n)) == n` for every natural number. |
| Text.IndexSuffixRoundTrip | src/s_interpreter/compiler.py:73-74 | A printed index of at least 1 is a valid index text, and it reads back as itself. |
| Text.ShowVariableToken | src/s_interpreter/compiler.py:73-74 | A printed valid variable is one variable token with its name and, when not 1, its index. |
| Text.ShowLabelToken | src/s_interpreter/compiler.py:104-105 | A printed valid label is one label token with its name and, when not 1, its index. |
| Text.VariableOfToken | src/s_interpreter/compiler.py:36-48 | A read token keeps its family and index. The packaged and legacy copies refuse `Y` with an index other than 1. |
| Text.ParseVariable | src/s_interpreter/compiler.py:36-48 | An accepted text is one variable token with whitespace around it. The packaged copy fails on anything else. The root copies fail only on a token (the `Y` index check) and return `None` for text outside the grammar. |
| Text.OldestLowerCaseOutputAsWritten | s_compiler.py:30-46 | The oldest copy accepts `y2` as the output variable `Y2`, which is not a valid variable. |
| Text.LowerCaseOutputCorrected | src/s_interpreter/compiler.py:36-48 | Upper-casing before the check refuses `y2`. |
| Text.LabelOfToken | src/s_interpreter/compiler.py:85-92 | A label token reads as a valid label with its name and index; the index defaults to 1. |
| Text.ParseLabel | src/s_interpreter/compiler.py:85-92 | `Label.compile` succeeds exactly on one label token with whitespace around it, and gives a valid label. |
| Text.JumpFormLayout | src/s_interpreter/compiler.py:172-174 | The jump pattern matches exactly text laid out as whitespace, `IF` in any case, a variable token, `!`, `=`, `0`, `GOTO` in any case and a label token, with whitespace required after `IF`, after `0` and after `GOTO`. The captures are the two tokens. |
| Text.SetOpFormLayout | src/s_interpreter/compiler.py:175-177 | The set-operation pattern matches exactly text laid out as a variable token, `<`, `-`, a second variable token and an optional `+ 1` or `- 1`, with whitespace allowed between the parts and nothing after the `1`. The captures are the two tokens and the operation. |
| Text.ParseSentenceWrites | src/s_interpreter/compiler.py:172-188 | `Sentence.compile` reads a sentence exactly when the text is laid out as a jump whose tokens read as its variable and label, or as a set-operation whose first token reads as its variable and whose second token agrees with it. Agreement is the same text ignoring case in the packaged copy, the same parsed variable in the legacy copy, and the same characters in the oldest copy. |
| Text.ParseInstructionWrites | src/s_interpreter/compiler.py:230-244 | `Instruction.compile` reads an instruction exactly when the line is whitespace, an optional `[L]` tag, whitespace, one line of sentence text and trailing whitespace, where the tag reads as the instruction's label and the sentence text reads as its sentence. |
| Text.VariableOfShow | src/s_interpreter/compiler.py:73-74 | A printed valid variable is a token that reads back as the variable. |
| Text.ParseVariableShow | src/s_interpreter/compiler.py:36-74 | `Variable.compile(str(v)) == v` for every valid variable. |
| Text.ParseLabelShow | src/s_interpreter/compiler.py:85-105 | `Label.compile(str(l)) == l` for every valid label. |
| Text.OpSuffixShow | src/s_interpreter/compiler.py:132-141 | The printed suffix of each set-operation reads back as that operation. |
| Text.ParseSentenceShow | src/s_interpreter/compiler.py:152-222 | Every dialect reads a printed valid sentence back to itself. |
| Text.ShowSentenceOneLine | src/s_interpreter/compiler.py:152-164 | A printed sentence is one non-empty line. It does not start with whitespace or `[`. |
| Text.ParseInstructionShow | src/s_interpreter/compiler.py:237-274 | `Instruction.compile(str(i)) == i` for every valid instruction, in every dialect. |
| Text.ParseInstructionShowPadded | src/s_interpreter/compiler.py:432-446 | A printed instruction with any padding after its label prefix, and an optional newline, still reads back to itself. |
| Listing.PrefixWidth | src/s_interpreter/compiler.py:433-439 | The padding column is the width of the widest label prefix: at least every prefix, equal to one of them, and 0 for the empty program (`default=0`). |
| Listing.ShowProgramColumns | src/s_interpreter/compiler.py:432-446 | `str(program)` read back has one line per instruction: its label prefix, blanks up to the widest prefix, then its sentence, with a newline on every line but the last. |
| Listing.ReadLinesExact | interpreter.py:99-100 | `readlines` returns exactly the pieces of the text cut after each `\n`: each non-empty, each ending in its only newline except perhaps the last. |
| Listing.ReadJoined | interpreter.py:99-100 | `readlines` on non-empty lines joined by `\n` gives each line with its newline, the last without. |
| Listing.ParseShownLines | src/s_interpreter/compiler.py:432-446 | Every line of a printed program reads back as its instruction, in order. |
| Listing.ListingRoundTrip | interpreter.py:99-101 | A valid program that keeps the convention, printed by `str` and read back line by line, compiles to itself in every dialect. |
| Macro.UpperText | src/s_interpreter/compiler.py:499-516 | Names are compared upper-cased, character by character. |
| Macro.TypeOf | src/s_interpreter/compiler.py:499-516 | The argument table gives a name a type exactly when the name is in the table. |
| Macro.ArgTableCorrect | src/s_interpreter/compiler.py:499-516 | Building the argument table succeeds exactly when all holes with the same name, up to case, declare the same type. The table then lists the distinct upper-cased names with their types. |
| Macro.CheckRepeatsBalanced | src/s_interpreter/compiler.py:536-553 | The counter check accepts a body exactly when every `END REPEAT` closes an earlier opening line and no block is left open. |
| Macro.MakeSugarCorrect | src/s_interpreter/compiler.py:555-565 | Building a sugar succeeds exactly when the holes agree on types and the body is balanced. The sugar then keeps the title, body and sugar list. |
| Macro.Nest | src/s_interpreter/compiler.py:682-721 | Reading the body into blocks stays within the body. A top-level read reaches its end. |
| Macro.NestUnnest | src/s_interpreter/compiler.py:682-721 | The blocks read stand for exactly the body lines they came from, with the closing `END REPEAT`. |
| Macro.NestWhole | src/s_interpreter/compiler.py:682-721 | A body read whole is the body its blocks stand for. |
| Macro.ConstOf | src/s_interpreter/compiler.py:454-458 | A compiled constant comes from a non-empty digit string and has its decimal value. |
| Macro.Capture | src/s_interpreter/compiler.py:712-713 | A named group is found exactly when the name is a group, and then it gives its captured text. |
| Macro.CompileArg | src/s_interpreter/compiler.py:741-746 | A compiled argument has the type its table entry declares, and is what that type's `compile` reads from the capture. |
| Macro.ParametersCompiled | src/s_interpreter/compiler.py:741-746 | `parameters` succeeds exactly when every table entry compiles (the legacy copy skips constants), and then holds exactly the values the entries compile to. |
| Macro.ParametersInArgs | src/s_interpreter/compiler.py:741-752 | Every compiled label and variable argument is one of the invocation's label or variable arguments. |
| Macro.Dedupe | src/s_interpreter/compiler.py:609-623 | The set of arguments, as a list without repeats holding exactly the given elements. |
| Macro.MaxIndex | src/s_interpreter/compiler.py:567-578 | The largest used index, attained by some used name, or 0 when none is used. |
| Macro.NewFixer | src/s_interpreter/compiler.py:595-607 | The generators start above every used variable and label index, with no renamings yet. |
| Macro.GenerateVariable | src/s_interpreter/compiler.py:574-578 | `generate` yields the `Z` variable one past the counter, and moves the counter up by one. |
| Macro.GenerateLabel | src/s_interpreter/compiler.py:586-590 | `generate` yields the `A` label one past the counter, and moves the counter up by one. |
| Macro.ShieldLabel | src/s_interpreter/compiler.py:609-623 | A shield is stored under its key, keeps the earlier shields, and renames back only to a caller's label. |
| Macro.ShieldVariable | src/s_interpreter/compiler.py:609-623 | A shield is stored under its key, keeps the earlier shields, and renames back only to a caller's variable. |
| Macro.ShieldParameters | src/s_interpreter/compiler.py:609-623 | Shielding the compiled arguments only moves the generators up. Every shield renames back to one of the caller's arguments. |
| Macro.ShieldsCover | src/s_interpreter/compiler.py:609-623 | Every label and variable argument gets a shield under its printed form. |
| Macro.LegacyShields | compiler.py:604-621 | The legacy per-line shields also move the generators up only, and rename back only to the caller's arguments. |
| Macro.LookupAsWritten | src/s_interpreter/compiler.py:646-648 | As written, a capture is replaced by the shield stored under that exact text, and kept otherwise. |
| Macro.Lookup | src/s_interpreter/compiler.py:709-716 | As written, and always in the legacy copy, a capture is looked up as captured. Repaired, the packaged copy finds the shield stored under the printed form of the compiled capture. |
| Macro.RenderOutcome | src/s_interpreter/compiler.py:708-716 | A body line fails to render exactly when one of its argument holes has no captured text. A line without argument holes comes out as written. |
| Macro.RenderAppend | src/s_interpreter/compiler.py:708-716 | Each hole is replaced on its own: rendering `a + b` renders `a`, then `b`. |
| Macro.LookupFindsShield | src/s_interpreter/compiler.py:646-648 | When shields are looked up by the printed form of the compiled capture, every shielded argument finds its shield. |
| Macro.ShieldLookupAsWritten | src/s_interpreter/compiler.py:622 | As written, the capture `Z1` misses its own shield, which is stored under `Z`. |
| Macro.ShieldLookupCorrected | src/s_interpreter/compiler.py:646-648 | Looked up by the printed form, `Z1` is replaced by its shield. |
| Macro.RepeatCount | src/s_interpreter/compiler.py:691-707 | A block's bound is the named group's text read as a constant. |
| Macro.EmitItems | src/s_interpreter/compiler.py:682-721 | In both expansions, emitting never lowers the generators. Only the legacy copy changes the renaming state while emitting. The shields keep renaming back to the caller's arguments. |
| Macro.EmitPassesCopies | src/s_interpreter/compiler.py:691-707 | Outside the legacy copy, `n` passes over a block emit its lines exactly `n` times. |
| Macro.EmitBlockCount | src/s_interpreter/compiler.py:691-707 | A block whose bound is k ≥ 1 emits its lines k times. |
| Macro.DisabledEmitsNothing | src/s_interpreter/compiler.py:707-720 | Repaired, disabled lines emit nothing, nested blocks included, and leave the renaming as it is. |
| Macro.ZeroBlockEmitsNothing | src/s_interpreter/compiler.py:691-707 | Repaired, a block bound to 0 emits nothing at all, however deep its nesting. |
| Macro.NestedZeroBlockAsWritten | src/s_interpreter/compiler.py:691-707 | As written, `REPEAT N` (N = 0) around `REPEAT M` (M = 1) still emits the inner line. |
| Macro.NestedZeroBlockCorrected | src/s_interpreter/compiler.py:691-707 | Repaired, the same body emits nothing. |
| Macro.AddLabelFix | src/s_interpreter/compiler.py:625-644 | After the step, the label has a renaming. |
| Macro.AddVariableFix | src/s_interpreter/compiler.py:625-644 | After the step, every `Z` variable has a renaming. |
| Macro.AddInstructionFixesCorrect | src/s_interpreter/compiler.py:625-644 | One instruction's step extends the renaming with fresh names and covers the instruction's labels and `Z` variable. |
| Macro.ProcessProgramFixesCorrect | src/s_interpreter/compiler.py:625-644 | `process_program_fixes` extends the renaming with fresh, distinct names, and covers every label and `Z` variable of the body. |
| Macro.FixProgram | src/s_interpreter/compiler.py:654-669 | `fix_program` renames each instruction in place. |
| Macro.FixProgramShape | src/s_interpreter/compiler.py:650-669 | Renaming keeps the number, order and kind of the instructions, and leaves `X` and `Y` as they are. |
| Macro.FixedProgramHygienic | src/s_interpreter/compiler.py:595-669 | A renamed body mentions, besides `X` and `Y`, only the caller's arguments and names above the used ones. Distinct body labels get distinct names. |
| Assembler.LabelsOf | src/s_interpreter/compiler.py:297-307 | The labels an instruction adds to the used names are its own label and its jump target. |
| Assembler.ProgramLabelList | src/s_interpreter/compiler.py:297-307 | The used labels of a body are exactly the labels it mentions. |
| Assembler.ProgramVariableList | src/s_interpreter/compiler.py:297-307 | The used variables of a body are exactly the variables it mentions. |
| Assembler.FirstSugar | src/s_interpreter/compiler.py:310-326 | The sugar chosen is the first, in list order, whose pattern accepts the line, and none is chosen when none does. |
| Assembler.SugarLabel | src/s_interpreter/compiler.py:310-326 | A labelled invocation's label is the valid `[L]` in front of it. |
| Assembler.ParseLine | src/s_interpreter/compiler.py:336-356 | A line that is an instruction is appended and its names are added. Otherwise the first accepting sugar gets a job at the current index, after a labelled `Y <- Y` when the line starts with `[L]`. If no sugar accepts, the instruction error is raised. |
| Assembler.ParseFrom | src/s_interpreter/compiler.py:336-356 | Every job names a listed sugar, and jobs are in ascending index order within the instructions read. |
| Assembler.SpliceWoven | src/s_interpreter/compiler.py:359-378 | Splicing each expansion at its recorded index, shifted by the lengths already inserted, puts every expansion exactly where its invocation was. |
| Assembler.ExpandJobs | src/s_interpreter/compiler.py:359-378 | One expansion per job. Each mentions only its own arguments and names above everything used before it, so no two expansions share a generated name. |
| Assembler.SugarCompile | src/s_interpreter/compiler.py:723-739 | In either expansion, an invocation compiles only when it matches. The packaged copy fails without used names, as `max` of `None` does. The expansion's labels and `Z` variables are the caller's arguments or lie above the used names. |
| Assembler.Shields | src/s_interpreter/compiler.py:731-735 | The up-front shielding only moves the generators up and renames back only to the caller's arguments. The legacy copy shields per line instead. |
| Assembler.CompileProgram | src/s_interpreter/compiler.py:390-404 | A compiled program never ends in an unlabelled `Y <- Y`. |
| Assembler.CompileProgramWoven | src/s_interpreter/compiler.py:359-378 | In either expansion, a compiled program is the instructions read, with each job's expansion woven in at its index. |
| Assembler.NoSugarLine | src/s_interpreter/compiler.py:336-356 | With no sugars, a line is accepted exactly when it is an instruction, and it adds no job. |
| Assembler.ParseFromNoSugars | src/s_interpreter/compiler.py:336-356 | With no sugars, reading succeeds exactly when every line is an instruction. |
| Assembler.CompileNoJobs | src/s_interpreter/compiler.py:381-387 | With no invocations, compiling gives the instructions, or the convention error when the last one is an unlabelled `Y <- Y`. |
| Assembler.CompileWithoutSugars | src/s_interpreter/compiler.py:381-404 | With no sugars, compiling succeeds exactly when every line reads and the convention holds. The result is the lines read, in order. |
| Assembler.ParseAll | s_compiler.py:246-258 | Reading every line succeeds exactly when each line is an instruction, and yields them in order. |
| Assembler.OldestCompile | s_compiler.py:246-258 | The oldest `Program.compile` succeeds exactly on arguments whose lines all read as instructions, non-empty, and keeping the convention. |
| Assembler.OldestCompileAsAssembler | s_compiler.py:246-258 | The oldest compile agrees with the packaged compile without sugars, on the same lines, except that no lines at all fail. |
| Assembler.OldestCompileJoined | s_compiler.py:246-258 | One argument holding the lines joined with newlines compiles to those lines read. |
| Slang.Classify | src/s_interpreter/compiler.py:766-787 | A line is blank exactly when it is whitespace or starts with `#` after whitespace. Title and content texts are stripped. |
| Slang.StepEffect | src/s_interpreter/compiler.py:766-787 | A line fails the scan exactly when it is unreadable or a title after `MAIN`. A title closes the open section and opens a new one. A content line is appended. |
| Slang.ScanLinesAppend | src/s_interpreter/compiler.py:766-787 | Scanning `a + b` scans `a`, then `b`. |
| Slang.ScanInMain | src/s_interpreter/compiler.py:769-771 | Once in `MAIN`, the scan succeeds exactly when no later line is a title or unreadable, and it stays in `MAIN`. |
| Slang.ScanReachesMain | src/s_interpreter/compiler.py:779-782 | A scan that ends in `MAIN` started there or read a `MAIN` title. |
| Slang.SplitSlangMain | src/s_interpreter/compiler.py:788-789 | An accepted file has a `MAIN` title. |
| Slang.TitleAfterMain | src/s_interpreter/compiler.py:770-771 | Any title after a `MAIN` title makes the file fail. |
| Slang.SplitSlangAccepts | src/s_interpreter/compiler.py:766-795 | A file is accepted exactly when every line is readable and one line opens `MAIN`: the first `MAIN` title, with no title after it. `MAIN` then holds the content lines after that title, in order. |
| Slang.ScanRenderedSections | src/s_interpreter/compiler.py:766-787 | Scanning rendered sugar sections closes them, in order. |
| Slang.SplitRenderSlang | src/s_interpreter/compiler.py:755-793 | Reading a rendered file gives back its sugar sections and its `MAIN` lines. |
| Interpreter.DefineLabels | interpreter.py:15-18 | The first pass sends each label to the index of its first defining instruction. |
| Interpreter.AddTargets | interpreter.py:21-26 | The second pass adds exactly the jump targets not yet mapped, each sent to the program length, and keeps the existing entries. |
| Interpreter.LabelMap | interpreter.py:15-26 | A label is mapped exactly when defined or jumped to. A defined label goes to its first definition. Any other label goes to the program length. |
| Interpreter.CollectVariables | interpreter.py:20-27 | The table holds exactly the variables the instructions mention, all at 0. |
| Interpreter.Load | interpreter.py:11-27 | At load, the table holds the program's variables plus `Y` (always in the current version, only when mentioned in the oldest), all at 0, with the index at 0. |
| Interpreter.Apply | interpreter.py:51-55 | Increment adds 1. Decrement subtracts 1 only from a positive value. No-op changes nothing. |
| Interpreter.Execute | interpreter.py:38-55 | Running one instruction keeps the program, the label map and the table's keys. |
| Interpreter.Step | interpreter.py:37-58 | A step reports a value exactly when the index is at the end, and the value is `Y`. The oldest version fails exactly when `Y` is missing from its table at the end. |
| Interpreter.StepJump | interpreter.py:41-47 | A jump goes to `label_map[target]` when its variable is non-zero and to the next index otherwise, changing no variable. |
| Interpreter.StepSetOp | interpreter.py:48-55 | A set-operation moves to the next index and changes only its own variable. |
| Interpreter.StepAtEnd | interpreter.py:57-58 | At the end, a step changes nothing and reports `Y` again. |
| Interpreter.JumpToUndefinedHalts | interpreter.py:21-26 | A taken jump to a label no instruction defines ends the run. |
| Interpreter.Run | interpreter.py:76-82 | The current version's run never fails. Its result is the first step result that is not `None`, if one is reached within the fuel (see `RunMoreFuel`). |
| Interpreter.RunMoreFuel | interpreter.py:76-82 | A run that reports a result reports the same result with more steps allowed. |
| Interpreter.StraightLineHalts | interpreter.py:76-82 | A program without jumps halts within its length. |
| Interpreter.Reset | interpreter.py:60-74 | A reset succeeds exactly on non-negative inputs. It keeps the program, labels and table keys, and puts the index back to 0. |
| Interpreter.ResetInputs | interpreter.py:60-74 | After a reset, `X_(i+1)` holds `x[i]` when the program mentions it, and every other variable is 0. |
| Interpreter.RunProgram | interpreter.py:76-82 | A current-version run fails only on negative inputs. |
| Interpreter.MissingOutputAsWritten | s_interpreter.py:19-50 | The oldest interpreter fails on `X1 <- X1 + 1`, whose table has no `Y`. |
| Interpreter.MissingOutputCorrected | interpreter.py:20-27 | The current interpreter reports 0 for the same program. |

## Left out

- File I/O, `argparse` and `main` are not modelled. Neither are `open`/`readlines` of the compiler and interpreter front ends. The text of a file comes in as a parameter, and `Listing.ReadLines` models `readlines`.
- Verbose tracing and the global recursion-depth counter are left out. They are diagnostics only.
- The regular expressions built from a usage line and a body are replaced by inputs:
  - the invocation matcher is a function from a line to its named captures (`Sugar.matcher`);
  - body lines come already cut into literal text, holes and REPEAT lines;
  - a usage line comes as its list of typed holes.
- Macro.MakeSugar: takes the matcher as a given function. It does not build one from the usage text. As a result `Slang` returns the sections of a file rather than `SyntacticSugar` objects.
- Assembler.SugarCompile: the freshness it states depends on the matcher capturing what the table declares. Regex matching semantics are not modelled.
- sympy's `factorint`, `primerange` and `prime` are replaced by the model's own primes (`Primes.NthPrime`, `Primes.Multiplicity`). No factorisation algorithm is modelled.
- Python's `set` iteration order is not modelled. Sets of used names and of arguments are lists in first-occurrence order. The properties proved do not depend on the order.
- Codec.VariableDecode: decoders take natural numbers. Negative arguments, which Python would accept and decode to nonsense, are not modelled.
- Codec.ProgramEncode: packaged copy only. The root copies raise on the empty program and number labels with multiplier 4. Only that label code is modelled, as `Codec.LegacyLabelEncodeAsWritten`.
- Codec.ProgramDecode: the packaged decoder's `max` over an empty factorisation (see Findings) is replaced by the empty program.
- Interpreter.Run: runs with fuel, because `run` may loop forever. Only results reached within the fuel are described. Non-termination is left out.
- Assembler.CompileProgram: recursion through sugars is bounded by the sugar tree. Each sugar only calls sugars defined before it, as `compile_slang_file` builds them. Mutually recursive sugars, which do not terminate in the source, cannot be expressed.
- Text.ExpectWord: case-insensitive matching compares ASCII upper case only. Python also identifies a few non-ASCII letters with ASCII ones, for example the dotless `ı` with `I`. Lines using such letters are not modelled.
- `Program.__add__`, `Const.__str__`, `SyntacticSugar.__str__` and `title` are trivial and are not modelled.
- The legacy `compile_slang` (compiler.py:680-720) has the same section logic as the packaged function and is covered by `Slang`.

## Findings

| source | as written | input that shows it | evidently intended | confidence | as-written member | corrected member |
|---|---|---|---|---|---|---|
| src/s_interpreter/compiler.py:59-71 | `Variable.decode` names every even shifted code `Y`, and the sentence, instruction and program decoders inherit it (`Codec.ProgramDecodeEncodeAsWritten`) | `Z1`: code 3, shifted code 2, decodes to `Y1`; `Z2` decodes to `Y2` | even codes name scratch variables `Z` | not executed | Codec.ScratchDecodesAsOutput | Codec.VariableDecodeEncode |
| src/s_interpreter/compiler.py:416-426 | `Program.decode` takes `max` of the factorisation of `n + 1` | the empty program encodes to 0, and `factorint(1)` is empty, so `max` fails | 0 decodes to the empty program | not executed | Codec.EmptyProgramDoesNotDecode | Codec.ProgramEncodeDecode |
| src/s_interpreter/compiler.py:622 | shields are stored under `str(parameter)` but looked up by the raw captured text | the argument `Z1` is stored under `Z`; the capture `Z1` misses it and is renamed as an internal | every argument is replaced by its own shield (the `Repaired` expansion) | not executed | Macro.ShieldLookupAsWritten | Macro.ShieldLookupCorrected |
| src/s_interpreter/compiler.py:691-707 | only the innermost REPEAT counter decides whether a line is emitted | `{REPEAT N}` with N = 0 around `{REPEAT M}` with M = 1 still emits the inner line | a block bound to 0 emits nothing, nested blocks included (the `Repaired` expansion) | not executed | Macro.NestedZeroBlockAsWritten | Macro.ZeroBlockEmitsNothing |
| compiler.py:96-97 | `Label.encode` multiplies the index by `ord("E") - ord("A")`, which is 4 | `E1` and `A2` both encode to 5 | multiplier 5, as decode divides by 5 | not executed | Codec.LegacyLabelsCollide | Codec.LabelEncodeInjective |
| s_compiler.py:30-46 | `Variable.compile` checks for `Y` before upper-casing | `y2` is accepted as `Y2` | only `Y` (index 1) is the output variable | not executed | Text.OldestLowerCaseOutputAsWritten | Text.LowerCaseOutputCorrected |
| s_interpreter.py:19-50 | the variable table only holds variables the program mentions, yet `step` reads `Y` at the end | `X1 <- X1 + 1` with no inputs fails with a missing `Y` | `Y` is always present and starts at 0 | not executed | Interpreter.MissingOutputAsWritten | Interpreter.MissingOutputCorrected |
