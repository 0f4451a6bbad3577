# Booth radix-4 toy CPU: a Dafny model

This project models the core of a small Python toolchain for a toy 16-bit CPU:

- `common_booth.py` holds the shared ISA tables and bit helpers.
- `assembler.py` is the assembler. It packs tokenised assembly lines into 16-bit words and writes them as lines of binary digits.
- `algorithm.py` is the executor. It decodes those lines, updates an eight-register file, and implements the `bth` instruction with a radix-4 Booth multiplier on a 13-bit accumulator.

The word formats are:

- R-type: opcode 0 (4 bits), rs, rt, rd, funct (3 bits each).
- I-type: opcode, rs, rt and a 6-bit immediate.

The modules follow the source files:

| module | file | models |
|---|---|---|
| `Wrappers` | `wrappers.dfy` | `Option` and `Result` |
| `Common` | `common.dfy` | `common_booth.py`: tables, widths, signed readings, two's complement, `bit_len` (a loop), the MSB test, the extension strings, and `'{:0Nb}'` / `int(s, 2)` as `Bits` / `BinaryValue` |
| `Assembler` | `assembler.py` | range checks, `unsigned_int`, word packing, the line loop of `assemble_instructions` (a method proved against the fold `Assembled`), `output_to_binary` (a method) |
| `Booth` | `booth.dfy` | the arithmetic of `boothsRadix4` on the integer value of the accumulator A |
| `Algorithm` | `algorithm.dfy` | decoding, the effect of a word (`Execute`), a run over a word list (`Run`), and the class `Machine`, whose field `r` is the register file and whose methods are `boothsRadix4`, `exec_rtype_instr`, `exec_immed_instr` and `execute_instructions` |

The main results:

- Every packed field can be read back from its word. Decoding the 16-digit rendering of a word gives back the fields (`DecodeRenderingR`, `DecodeRenderingI`).
- An assembled file lays out each statement's words in source order. It fails exactly when some line fails, and it reports the first such line by its 1-based physical line number.
- `li` loads its immediate end to end: assemble, write out, execute. `ExampleProgram` runs a whole four-line program for any three loaded values.
- The Booth loop's accumulator always fits in 13 bits. The triples it inspects depend only on rs. Register r3 matters only when a triple is `011` or `100`.
- Booth is exact when nothing overflows: the 12-bit signed result is the sum of the recoded digits times the addends (`BoothValue`).
- `bth` multiplies, `s12(result) == s6(rs) * s6(rt)`, when rt lies in [-15, 15] as a 6-bit signed value and r3 holds twice rt (`BoothMultiplies`). At -16, the one other value for which r3 can hold twice rt, the accumulator can overflow, depending on rs: rs = 2 gives 4000 (`ExampleMinusSixteenOverflows`), while rs = 1 gives the exact 4080, which is -16 (`ExampleMinusSixteenTimesOne`).

## Behaviour of the code worth knowing

- **The "2B" and "-2B" addends** are built from register r3, not from 2·rt (algorithm.py:33, 35).
  - With r3 equal to rt, 6·3 gives 9 (`Booth.ExampleSixTimesThreeR3Unset`).
  - r3 can hold 2·rt, read as a 6-bit signed value, only when s6(rt) lies in [-16, 15]. With r3 = 2·rt the product is exact for s6(rt) in [-15, 15] (`Booth.BoothMultiplies`).
  - For s6(rt) = -16 it can overflow, depending on rs. rs = 2, rt = 48, r3 = 32 gives 4000, which is -96 as 12-bit signed rather than -32 (`Booth.ExampleMinusSixteenOverflows`). rs = 1 with the same rt and r3 gives 4080, which is the exact -16 (`Booth.ExampleMinusSixteenTimesOne`).
  - r3 matters only for the triples `011` and `100`. No triple of 5 is one of them, so 5·3 gives 15 for every r3 (`Booth.ExampleFiveTimesThree`, `Booth.R3Irrelevant`).
- **The Booth loop for wide rs.** For any rs below 2^12 (and rt, r3 below 2^6) the string code computes the same 13-bit accumulator values as the integer model. For example rs = 4087, rt = 3, r3 = 6 gives 4068 (`Booth.ExampleWideMultiplier`).
- **The `li` range.** `li` accepts [0, 63], because `check_max_unsigned_value` compares against `MAX_IMMED_VALUE` (assembler.py:17, 50). The high half that `li` emits is therefore always 0 (`Assembler.LiExpansion`).
- **I-type mnemonics.** Only `lw`, `sw` and `li` are accepted as I-type text (assembler.py:31-32). A line such as `addi $r1 40` is a parse error, not a range error.
- **R-type operand order.** The text order is `rd rs rt` (assembler.py:30, 84-86). So `bth $r1 $r2 $r3` writes the Booth result of r2 and r3 into r1; it does not leave a product in r3. Here r3 is both rt and the register the 2B/-2B addends come from, so for s6(r3) in [-15, 15] the result is r2·r3 when no inspected triple of r2 is `011` or `100` (`Booth.R3Irrelevant` with `Booth.BoothMultiplies`), and need not be otherwise: 6·3 gives 9 (`Booth.ExampleSixTimesThreeR3Unset`).

## Model

| member | source | states |
|---|---|---|
| `Common.OpcodesWellFormed` | common_booth.py:13-21 | the opcode table is injective, its codes are exactly 1..7, each fits in 4 bits |
| `Common.FunctsWellFormed` | common_booth.py:23-30 | the funct table is injective, its codes are exactly 0..5, each fits in 3 bits |
| `Common.RegistersWellFormed` | common_booth.py:32-41 | the register table maps its eight names bijectively onto 0..7 |
| `Common.OpcodeName` | algorithm.py:103 | the reverse look-up finds a name exactly when the code is in the table, and that name maps back to the code |
| `Common.FunctName` | algorithm.py:93 | the same for functs: a name exactly for codes in the table, mapping back to the code |
| `Common.RegisterName` | algorithm.py:94-96 | the register name of an index is a key of the table that maps back to the index |
| `Common.RegisterNameOf` | algorithm.py:94-96 | the reverse look-up of a register's own index gives back that register's name |
| `Common.UnsignedToSigned` | common_booth.py:48-51 | the result lies in [-2^(n-1), 2^(n-1)), is congruent to the value mod 2^n, and is the identity on [0, 2^(n-1)) |
| `Common.UnsignedToSignedUnique` | common_booth.py:48-51 | the result is the only value in that range congruent to the input |
| `Common.TwosComplement` | common_booth.py:54-55 | for a 6-bit value the result lies in (0, 64] and adds to the value to 0 mod 64 |
| `Common.TwosComplementNegates` | common_booth.py:54-55 | read as 6-bit signed, the result is the negation, except that -32 stays -32 |
| `Common.BitLen` | common_booth.py:62-67 | the loop returns 0 for 0, and otherwise the L with 2^(L-1) <= v < 2^L |
| `Common.IsMsbSigned` | common_booth.py:70-71 | the test holds exactly when the n-bit signed reading is negative |
| `Common.MsbIsSign` | common_booth.py:70-71 | bit n-1 is set exactly when the n-bit signed reading is negative |
| `Common.SignExtend` | common_booth.py:74-77 | max(0, max_len - bit_len) copies of bit s_len-1 of the value |
| `Common.ZeroExtend` | common_booth.py:80-81 | max(0, max_len - bit_len) copies of '0' |
| `Common.OneExtend` | common_booth.py:82-83 | max(0, max_len - bit_len) copies of '1' |
| `Common.Bits` | common_booth.py:58-59 | the padded binary rendering has exactly the requested width and only binary digits |
| `Common.BinaryValue` | algorithm.py:113 | the value of a binary string of length n is below 2^n |
| `Common.BinaryValueOfBits` | assembler.py:121 | reading back a width-w rendering gives the number mod 2^w |
| `Common.BitsOfBinaryValue` | algorithm.py:113-121 | rendering the value of a binary string at its own length gives the string back |
| `Common.BitsField` | algorithm.py:113-121 | the characters [a:b] of a rendering spell the bit field (n >> (w-b)) mod 2^(b-a) |
| `Assembler.ShiftValues` | assembler.py:13-17 | the shifts are 12, 9, 6 and 3, and MAX_IMMED_VALUE is 63 |
| `Assembler.CheckMaxSignedValue` | assembler.py:45-47 | an error with this line number exactly when the value is outside [-32, 31] |
| `Assembler.CheckMaxUnsignedValue` | assembler.py:49-51 | an error with this line number exactly when the value is outside [0, 63] |
| `Assembler.UnsignedInt` | assembler.py:54-57 | maps [-32, 31] into [0, 63] with the same 6-bit signed reading, is the identity on [0, 63], and preserves the value mod 64 |
| `Assembler.OnlyR0Unknown` | common_booth.py:32-41 | of the names `r0`..`r7` the grammar admits, exactly `r0` is not a key of the register table |
| `Assembler.UnknownRegisterIsR0` | assembler.py:84-86 | a tokenised line whose register operands are `r` and a digit 0-7 and whose register look-up fails, fails on `r0` |
| `Assembler.FirstUnknown` | assembler.py:84-86 | an error exactly when some operand is not a register name; it names the first such operand |
| `Assembler.EncodeR` | assembler.py:82-88 | the R-type word is below 2^16, its opcode field is 0, and rs, rt, rd and funct are read back from their fields |
| `Assembler.EncodeI` | assembler.py:90-96 | the I-type word is below 2^16 and its opcode, rs, rt and immediate are read back from their fields |
| `Assembler.SplitImmediate` | assembler.py:102-103 | both halves fit in 6 bits and recombine to any 12-bit value; a 6-bit value has high half 0 |
| `Assembler.LiExpansion` | assembler.py:97-108 | li emits exactly lui (rs 0, rt, 0) then ori (rs = rt, rt, the value) |
| `Assembler.EncodeStatement` | assembler.py:75-111 | an error carries the line number; success emits as many words as the statement's kind calls for (0, 1 or 2) |
| `Assembler.EncodedWordsFit` | assembler.py:82-108 | every word a line packs into is below 2^16 |
| `Assembler.EncodeStatementFails` | assembler.py:45-111 | a line fails exactly when it could not be parsed, names an operand that is not a register, or carries an immediate outside [-32, 31] (lw/sw) or [0, 63] (li) |
| `Assembler.AssembledSnoc` | assembler.py:63-113 | one more line that packs appends its words after the earlier ones |
| `Assembler.AssembleInstructions` | assembler.py:60-114 | the loop over the lines, numbering them from 1, returns the fold `Assembled` |
| `Assembler.FailureSticks` | assembler.py:109-110 | once a prefix of the file fails, the whole file fails with the same error |
| `Assembler.EncodesLast` | assembler.py:63-111 | every line of a file packs exactly when every line before the last packs and the last one does |
| `Assembler.AssembledSucceeds` | assembler.py:60-114 | a file assembles exactly when every line packs on its own |
| `Assembler.AssembledFirstError` | assembler.py:62-67 | the reported line lies in the file, its own error is the one raised, and every earlier line packs |
| `Assembler.AssembledWordsFit` | assembler.py:111 | the file emits as many words as its statements count, each below 2^16 |
| `Assembler.AssembledLayout` | assembler.py:63-113 | statement i's words sit, in order, at the position given by the words of the lines before it |
| `Assembler.Rendered` | assembler.py:117-121 | the object file has one line per word, and line i is word i in 16 binary digits |
| `Assembler.RenderedAppend` | assembler.py:117-121 | writing out a concatenation of word lists writes out each in turn |
| `Assembler.OutputToBinary` | assembler.py:117-121 | the loop returns `Rendered` of the words: one line per word, each 16 binary digits whose value is the word |
| `Booth.Addend` | algorithm.py:31-35 | the addend is a multiple of 2^7, at most 2^13, and 0 for triples 000 and 111 |
| `Booth.Asr2` | algorithm.py:73-81 | the shift stays below 2^13 and either divides by four or also sets the two top bits |
| `Booth.Asr2Signed` | algorithm.py:73-81 | read as 13-bit signed, the shift divides by four, rounding down |
| `Booth.Step` | algorithm.py:49-81 | one step keeps A below 2^13 |
| `Booth.StepSameAddend` | algorithm.py:51-61 | a step whose low bits are neither 011 nor 100 is the same whatever r3 holds |
| `Booth.StepIgnoresR3` | algorithm.py:51-81 | when A agrees before such a step for two values of r3, it agrees after it |
| `Booth.StepByParts` | algorithm.py:51-81 | the string code's own order of work (add the addend, clear the carry bit of a 14-bit sum, shift by two, re-extend with ones when bit 12 is set) computes `Step`; this ties the carry clear and the ones re-extension of algorithm.py:68-81 to the single-expression `Step` |
| `Booth.Acc` | algorithm.py:31 | A starts at 2·rs and stays below 2^13 after every step |
| `Booth.Product` | algorithm.py:84-85 | the result written to rd is below 2^12 |
| `Booth.StepSigned` | algorithm.py:54-76 | a step without 13-bit overflow adds the addend's signed value times 2^7 and then divides by four |
| `Booth.InspectedTriples` | algorithm.py:49 | the three triples A's low bits show are (q1 q0 0), (q3 q2 q1), (q5 q4 q3) of rs |
| `Booth.AccIgnoresR3` | algorithm.py:57-66 | when no inspected triple is 011 or 100, exchanging r3 leaves every accumulator value unchanged |
| `Booth.R3Irrelevant` | algorithm.py:33-35 | under the same condition the product does not depend on r3 |
| `Booth.DigitPair` | algorithm.py:51-71 | the recoded digit of a triple is the 2-bit signed value of its top two bits plus its low bit |
| `Booth.RecodeDigits` | algorithm.py:51-71 | the three digits of the triples of rs, weighted by 1, 4 and 16, add up to rs as 6-bit signed |
| `Booth.BoothRecoding` | algorithm.py:51-71 | the 6-bit signed value of rs equals d0 + 4·d1 + 16·d2 for the recoding digits of its triples |
| `Booth.BoothValue` | algorithm.py:47-85 | without overflow, the 12-bit signed product is e0 + 4·e1 + 16·e2 over the chosen addend values |
| `Booth.DigitAddendsNoOverflow` | algorithm.py:51-81 | when each addend is its recoding digit times one b in [-15, 15], no step overflows the 13-bit accumulator |
| `Booth.BoothMultiplies` | algorithm.py:22-88 | with s6(rt) in [-15, 15] and s6(r3) = 2·s6(rt), the 12-bit signed product is s6(rs)·s6(rt) |
| `Booth.ProductBySteps` | algorithm.py:47-85 | three steps from 2·rs through the given accumulator values leave half the last one as the product |
| `Booth.ExampleFiveTimesThree` | algorithm.py:89 | 5 times 3 gives 15 whatever r3 holds |
| `Booth.ExampleFiveTimesMinusThree` | algorithm.py:86-89 | 5 times 61 (-3) gives 4081, which is -15 as 12-bit signed |
| `Booth.ExampleSixTimesThree` | algorithm.py:57-61 | 6 times 3 gives 18 when r3 holds 6 |
| `Booth.ExampleSixTimesThreeR3Unset` | algorithm.py:62-66 | 6 times 3 gives 9 when r3 holds 3 |
| `Booth.ExampleMinusSixteenOverflows` | algorithm.py:47-85 | 2 times 48 (-16) with r3 = 32 (-32) gives 4000, which is -96 as 12-bit signed and not -32 |
| `Booth.ExampleMinusSixteenTimesOne` | algorithm.py:47-85 | 1 times 48 (-16) with r3 = 32 (-32) gives 4080, which is the exact -16: whether -16 overflows depends on rs |
| `Booth.ExampleWideMultiplier` | algorithm.py:31-85 | rs = 4087, wider than six bits, times 3 with r3 = 6 gives 4068 |
| `Algorithm.DecodeLine` | algorithm.py:113-121 | the decoded funct fits in 3 bits, an I-type opcode is 1..15, and the immediate fits in 6 bits |
| `Algorithm.DecodeRenderingR` | algorithm.py:116-119 | decoding the rendering of a packed R-type word gives back rs, rt, rd and funct |
| `Algorithm.DecodeRenderingI` | algorithm.py:120-122 | decoding the rendering of a packed I-type word gives back opcode, rs, rt and the immediate |
| `Algorithm.RTypeStatementDecodes` | assembler.py:82-88 | an accepted R-type line becomes one line of object code that decodes to its mnemonic's funct and the indices of its rs, rt and rd |
| `Algorithm.DTypeStatementDecodes` | assembler.py:90-96 | an accepted lw or sw line becomes one line that decodes to its opcode, rs 0, its register's index and a 6-bit field whose signed reading is its offset |
| `Algorithm.BitOrBits` | algorithm.py:109 | bit k of the OR is set exactly when bit k of either operand is |
| `Algorithm.BitOrLow` | algorithm.py:109 | OR with a value below 2^n keeps the bits from n up, and stays below 2^n when both operands do |
| `Algorithm.Execute` | algorithm.py:92-109 | a word that does not fault leaves a register file with the same eight registers |
| `Algorithm.Run` | algorithm.py:111-122 | a run over a word list keeps the eight registers |
| `Algorithm.Machine.constructor` | algorithm.py:14 | the register file holds the eight registers, all 0 |
| `Algorithm.RecodeStep` | algorithm.py:49-81 | one pass of the loop body, on the addends the source precomputes from rt and r3, computes `Booth.Step` |
| `Algorithm.Machine.BoothsRadix4` | algorithm.py:22-85 | the three-step loop writes `Booth.Product(rs, rt, r3)` to rd and changes nothing else |
| `Algorithm.Machine.ExecRTypeInstr` | algorithm.py:92-100 | the new register file is `Execute`'s; on a fault nothing changes |
| `Algorithm.Machine.ExecImmedInstr` | algorithm.py:102-109 | the new register file is `Execute`'s; on a fault nothing changes |
| `Algorithm.Machine.ExecInstr` | algorithm.py:116-122 | opcode 0 goes to the R-type executor and any other to the I-type one; the registers become `Execute`'s, and a fault changes nothing |
| `Algorithm.Machine.ExecuteInstructions` | algorithm.py:111-122 | the loop over the lines leaves the registers and fault that `Run` gives |
| `Algorithm.RunContinues` | algorithm.py:112-122 | a line that executes extends the run of the lines before it by its effect |
| `Algorithm.RunHaltsAt` | algorithm.py:112-122 | the run up to a faulting line ends there with that fault and the registers before it |
| `Algorithm.HaltIsFinal` | algorithm.py:112-122 | after a faulting word, the later words change nothing |
| `Algorithm.RunAppend` | algorithm.py:112-122 | running two lists in turn is running their concatenation, stopping at a fault in the first |
| `Algorithm.ImmedEffects` | algorithm.py:102-109 | an I-type word faults exactly for an opcode outside 1..7; otherwise only rt may change: lui overwrites it, ori ORs into it and keeps every bit above the low six, the rest leave it |
| `Algorithm.RTypeEffects` | algorithm.py:92-100 | an R-type word faults exactly for a funct above 5 or a bth whose rt or r3 is 64 or more or whose rs is 4096 or more; otherwise only rd may change: bth writes the product, sll shifts, the rest leave it |
| `Algorithm.BthMultiplies` | algorithm.py:97-98 | a bth word with rt in [-15, 15] and r3 = 2·rt leaves s6(rs)·s6(rt) in rd as 12-bit signed |
| `Algorithm.LiLoads` | assembler.py:97-108 | li's two words, written out and executed, set rt to the value and leave the other registers alone |
| `Algorithm.ExampleProgram` | algorithm.py:111-122 | for any a, b, c in [0, 63], `li $r1 a`, `li $r2 b`, `li $r3 c`, `bth $r4 $r1 $r2` assembles, is written out and runs from zeroed registers without a fault, leaving a, b, c in r1-r3 and the Booth product in r4 |
| `Algorithm.ExampleSixTimesThreeProgram` | algorithm.py:111-122 | that program with 6, 3 and 6 leaves 18 = 6·3 in r4 |

## Left out

- Input and output are not modelled: the `__main__` blocks, opening and reading files, `print`, `print_registers` and `sys.exit` (assembler.py:123-155, algorithm.py:16-20, 124-139).
  - `Assembler.OutputToBinary` returns the lines instead of writing them.
  - `Algorithm.Machine.ExecuteInstructions` takes the lines as a sequence.
- The regular-expression tokenizer and comment stripping are not modelled (assembler.py:28-32, 64-80). A line arrives as a `Statement`:
  - an R-type mnemonic with its three register names;
  - `lw`/`sw` with a register name and the integer `int(text, 0)` yields;
  - `li` with the same;
  - `Blank`, for a comment or empty line;
  - `Unparsed`, for any other line.

  Python's `int(text, 0)` quirks are outside the model: octal and hex prefixes, and the `ValueError` on strings such as `1F`.
- A register operand is `$r` and a digit 0-7 (`Assembler.RegisterToken`, without the `$`). Of these only `$r0` is missing from the table, which calls register 0 `s0`; `$s0` does not match the grammar at all. For `$r0` the source stops with an uncaught `KeyError`. The model reports it as the error `UnknownRegister` carrying the line number.
  - A `Statement` carries its register operands as plain strings. `Assembler.RegisterTokens` states the grammar's constraint on them, and only `Assembler.UnknownRegisterIsR0` assumes it, so the other lemmas also cover operand strings the grammar rejects (such as `s0`, which packs as register 0).
- `Algorithm.DecodeLine`: requires binary digits in the first 16 characters, because a malformed object line makes `int(..., 2)` raise. The assembler never writes such a line.
- `Algorithm.Machine.BoothsRadix4`: requires rs below 2^12 and rt and r3 below 2^6. Outside that range the strings are wider than 13 digits: `B` and `2B` for rt or r3 of 64 or more, `A` for rs of 4096 or more. The carry clear drops only one leading digit, so the sums need not be reduced modulo 2^13. For rt or r3 above 64 the negated addend `64 - rt` is negative, and a negative sum makes `bit_len` loop.
  - `Algorithm.Execute` stops such a `bth` with the fault `BoothOperandTooWide` instead of following the string code, even in runs where the source would still produce a value.
- `Booth.Acc` models the binary strings of `boothsRadix4` by their integer value.
  - The odd string lengths, such as the 14-character strings when rs or rt is 0, are numerically the same.
  - The printed trace and the "Product of" line are output only.
- `Common.BitLen`: requires v >= 0, because for a negative argument the loop never ends (`>>=` stays at -1).
- `integer_to_binary` with the unpadded `'{:b}'` format appears only inside the string code of `boothsRadix4`; it is covered by the integer model above.
- algorithm.py calls `bitLen`, `integerToBinary`, `twosComplement` and `isMSBSigned`, while common_booth.py defines `bit_len`, `integer_to_binary`, `twos_complement` and `is_MSB_signed`. These Python 2 name mismatches are modelled as the defined helpers. Integer `/` in `big_len / 2` is modelled as 3.
- `output_to_binary` reads the global `instructions` instead of its parameter (assembler.py:118). At the one call site both are the same list, so the model uses the parameter.
- Concurrency and floating point do not arise.
