/** The assembler (assembler.py): one tokenised statement per physical line,
    packed into one or two 16-bit words, and the object file's rendering of
    the words as 16-digit binary strings. */
module Assembler {
  import opened Wrappers
  import opened Common

  // Left shifts that place each field in the word.
  const OpShift: nat := TotalBitLength - OpBitLength
  const RsShift: nat := OpShift - RBitLength
  const RtShift: nat := RsShift - RBitLength
  const RdShift: nat := RtShift - RBitLength
  const MaxImmedValue: int := Pow2(ImmedBitLength) - 1

  lemma ShiftValues()
    ensures OpShift == 12 && RsShift == 9 && RtShift == 6 && RdShift == 3
    ensures MaxImmedValue == 63
  {
    Pow2Values();
  }

  /** Why a line was rejected; the source's message text carries the same
      data. UnknownRegister is the dictionary lookup that fails for an operand
      such as `$r0`, whose name is not a key of the register table. */
  datatype Reason =
    | SignedOutOfRange(value: int)
    | UnsignedOutOfRange(value: int)
    | CannotParse(text: string)
    | UnknownRegister(name: string)

  /** AssemblerError(line, reason), with the 1-based physical line number. */
  datatype AssemblerError = AssemblerError(line: nat, reason: Reason)

  /** An operand the pattern `\$r[0-7]` matches, after its `$` is dropped. */
  predicate RegisterToken(name: string) {
    |name| == 2 && name[0] == 'r' && '0' <= name[1] <= '7'
  }

  /** One physical line after comment stripping and tokenising. Blank stands
      for a line that starts with '#' and for one that is empty once its
      comment and surrounding whitespace are gone. Register operands are the
      names after the `$`; RType carries them in text order: rd, rs, rt.
      The immediate is the value `int(text, 0)` gives. Unparsed is a line no
      grammar matches. */
  datatype Statement =
    | Blank
    | RType(instr: string, rd: string, rs: string, rt: string)
    | DType(instr: string, rt: string, immed: int)
    | LoadImmediate(rt: string, immed: int)
    | Unparsed(text: string)

  /** What the regular expressions guarantee about a matched line's
      mnemonic: an R-type mnemonic is a key of the funct table and the only
      I-type mnemonics accepted in text are lw and sw (li has a grammar of
      its own). */
  predicate Tokenised(s: Statement) {
    match s
    case RType(instr, _, _, _) => instr in Functs
    case DType(instr, _, _) => instr == "lw" || instr == "sw"
    case _ => true
  }

  /** The only register token that is not a key of the register table is
      r0: the table calls register 0 s0. */
  lemma OnlyR0Unknown(name: string)
    requires RegisterToken(name)
    ensures name !in Registers <==> name == "r0"
  {
    assert name == ['r', name[1]];
  }

  /** The register operands of a line are tokens the grammar admits. */
  predicate RegisterTokens(s: Statement) {
    forall j :: 0 <= j < |RegisterOperands(s)| ==> RegisterToken(RegisterOperands(s)[j])
  }

  /** So the only register a matched line can fail to look up is r0. */
  lemma UnknownRegisterIsR0(s: Statement, lineNo: nat)
    requires Tokenised(s) && RegisterTokens(s)
    requires EncodeStatement(s, lineNo).Failure? && EncodeStatement(s, lineNo).error.reason.UnknownRegister?
    ensures EncodeStatement(s, lineNo).error.reason.name == "r0"
  {
    var names := RegisterOperands(s);
    var r := FirstUnknown(names, lineNo);
    assert r.Some?;
    var i :| 0 <= i < |names| && r.value == AssemblerError(lineNo, UnknownRegister(names[i])) && names[i] !in Registers;
    OnlyR0Unknown(names[i]);
  }

  /** The first of the names, in lookup order, that is not a register. */
  function FirstUnknown(names: seq<string>, lineNo: nat): (r: Option<AssemblerError>)
    ensures r.Some? <==> exists i :: 0 <= i < |names| && names[i] !in Registers
    ensures r.Some? ==> exists i :: 0 <= i < |names| && r.value == AssemblerError(lineNo, UnknownRegister(names[i]))
                          && names[i] !in Registers && forall j :: 0 <= j < i ==> names[j] in Registers
  {
    if |names| == 0 then None
    else if names[0] !in Registers then Some(AssemblerError(lineNo, UnknownRegister(names[0])))
    else
      var r := FirstUnknown(names[1..], lineNo);
      assert forall i :: 1 <= i < |names| ==> names[i] == names[1..][i - 1];
      r
  }

  /** The register names a statement looks up, in the order the source does. */
  function RegisterOperands(s: Statement): seq<string> {
    match s
    case RType(_, rd, rs, rt) => [rd, rs, rt]
    case DType(_, rt, _) => [rt]
    case LoadImmediate(rt, _) => [rt]
    case _ => []
  }

  /** check_max_signed_value: a 6-bit signed immediate lies in [-32, 31]. */
  function CheckMaxSignedValue(value: int, lineNo: nat): (r: Option<AssemblerError>)
    ensures r.Some? <==> value < -32 || value > 31
    ensures r.Some? ==> r.value == AssemblerError(lineNo, SignedOutOfRange(value))
  {
    Pow2Values();
    if value > Pow2(ImmedBitLength - 1) - 1 || value < -Pow2(ImmedBitLength - 1) then
      Some(AssemblerError(lineNo, SignedOutOfRange(value)))
    else
      None
  }

  /** check_max_unsigned_value: the li immediate lies in [0, MAX_IMMED_VALUE],
      that is [0, 63]. */
  function CheckMaxUnsignedValue(value: int, lineNo: nat): (r: Option<AssemblerError>)
    ensures r.Some? <==> value < 0 || value > 63
    ensures r.Some? ==> r.value == AssemblerError(lineNo, UnsignedOutOfRange(value))
  {
    ShiftValues();
    if value > MaxImmedValue || value < 0 then
      Some(AssemblerError(lineNo, UnsignedOutOfRange(value)))
    else
      None
  }

  /** unsigned_int: when bit 5 is set, keep only the low six bits (value &
      MAX_IMMED_VALUE, which for a negative value is its two's complement
      pattern). */
  function UnsignedInt(value: int): (r: int)
    ensures -32 <= value <= 31 ==> 0 <= r <= 63 && UnsignedToSigned(r, 6) == value
    ensures 0 <= value <= 63 ==> r == value
    ensures (r - value) % 64 == 0
  {
    ShiftValues();
    Pow2Values();
    var r := if IsMsbSigned(value, ImmedBitLength) then value % (MaxImmedValue + 1) else value;
    UnsignedIntFacts(value, r);
    r
  }

  lemma UnsignedIntFacts(value: int, r: int)
    requires r == if (value / 32) % 2 == 1 then value % 64 else value
    ensures -32 <= value <= 31 ==> 0 <= r <= 63 && UnsignedToSigned(r, 6) == value
    ensures 0 <= value <= 63 ==> r == value
    ensures (r - value) % 64 == 0
  {
    if (value / 32) % 2 == 1 {
      DivModUnique(r - value, 64, -(value / 64), 0);
      if -32 <= value < 0 {
        DivModUnique(value, 64, -1, value + 64);
        Pow2Values();
        UnsignedToSignedUnique(r, 6, value);
      } else if 0 <= value <= 31 {
        DivModUnique(value, 32, 0, value);
      } else if 32 <= value <= 63 {
        DivModUnique(value, 64, 0, value);
      }
    } else {
      assert (r - value) % 64 == 0;
      if -32 <= value < 0 {
        DivModUnique(value, 32, -1, value + 32);
      } else if 0 <= value <= 31 {
        Pow2Values();
      }
    }
  }

  /** The word opcode << op_shift | rs << rs_shift | rt << rt_shift | low.
      The fields occupy disjoint bits, so the source's `|` is `+` here. */
  function Word(opcode: nat, rs: Reg, rt: Reg, low: nat): nat {
    opcode * Pow2(OpShift) + rs * Pow2(RsShift) + rt * Pow2(RtShift) + low
  }

  /** An R-type word: opcode 0, then rs, rt, rd and funct. Every field can be
      read back from the word. */
  function EncodeR(rs: Reg, rt: Reg, rd: Reg, funct: nat): (w: nat)
    requires funct < Pow2(FunctBitLength)
    ensures w < Pow2(TotalBitLength)
    ensures w / 4096 == 0 && (w / 512) % 8 == rs && (w / 64) % 8 == rt
    ensures (w / 8) % 8 == rd && w % 8 == funct
  {
    ShiftValues();
    Pow2Values();
    var w := Word(0, rs, rt, rd * Pow2(RdShift) + funct);
    assert w == 512 * rs + 64 * rt + 8 * rd + funct;
    DivModUnique(w, 4096, 0, w);
    DivModUnique(w, 512, rs, 64 * rt + 8 * rd + funct);
    DivModUnique(w / 512, 8, 0, rs);
    DivModUnique(w, 64, 8 * rs + rt, 8 * rd + funct);
    DivModUnique(w / 64, 8, rs, rt);
    DivModUnique(w, 8, 64 * rs + 8 * rt + rd, funct);
    DivModUnique(w / 8, 8, 8 * rs + rt, rd);
    w
  }

  /** An I-type word: opcode, rs, rt and the 6-bit immediate, each of which
      can be read back from the word. */
  function EncodeI(opcode: nat, rs: Reg, rt: Reg, immed: nat): (w: nat)
    requires 1 <= opcode < Pow2(OpBitLength) && immed < Pow2(ImmedBitLength)
    ensures w < Pow2(TotalBitLength)
    ensures w / 4096 == opcode && (w / 512) % 8 == rs && (w / 64) % 8 == rt && w % 64 == immed
  {
    ShiftValues();
    Pow2Values();
    var w := Word(opcode, rs, rt, immed);
    assert w == 4096 * opcode + 512 * rs + 64 * rt + immed;
    DivModUnique(w, 4096, opcode, 512 * rs + 64 * rt + immed);
    DivModUnique(w, 512, 8 * opcode + rs, 64 * rt + immed);
    DivModUnique(w / 512, 8, opcode, rs);
    DivModUnique(w, 64, 64 * opcode + 8 * rs + rt, immed);
    DivModUnique(w / 64, 8, 8 * opcode + rs, rt);
    w
  }

  /** The halves of the li immediate: (immed >> 6) & MAX_IMMED_VALUE and
      immed & MAX_IMMED_VALUE. Any 12-bit value is their recombination. */
  function SplitImmediate(immed: nat): (r: (nat, nat))
    ensures r.0 < 64 && r.1 < 64
    ensures immed < 4096 ==> r.0 * 64 + r.1 == immed
    ensures immed < 64 ==> r == (0, immed)
  {
    ShiftValues();
    Pow2Values();
    var high := (immed / Pow2(6)) % (MaxImmedValue + 1);
    var lo := immed % (MaxImmedValue + 1);
    SplitFacts(immed);
    (high, lo)
  }

  lemma SplitFacts(immed: nat)
    ensures immed < 4096 ==> (immed / 64) % 64 == immed / 64
    ensures immed < 64 ==> immed / 64 == 0 && immed % 64 == immed
  {
    if immed < 4096 {
      DivModUnique(immed / 64, 64, 0, immed / 64);
    }
    if immed < 64 {
      DivModUnique(immed, 64, 0, immed);
    }
  }

  /** li expands to lui then ori: lui with rs 0 and the high half, ori
      with rs = rt and the low half; in the accepted range [0, 63] the high
      half is 0 and the low half is the value itself. */
  lemma LiExpansion(name: string, v: int, lineNo: nat)
    requires RegisterToken(name) && name in Registers && 0 <= v <= 63
    ensures EncodeStatement(LoadImmediate(name, v), lineNo)
            == Success([EncodeI(Opcodes["lui"], 0, Registers[name], 0),
                        EncodeI(Opcodes["ori"], Registers[name], Registers[name], v)])
  {
    RegistersFit();
    OpcodesFit();
    Pow2Values();
    assert FirstUnknown([name], lineNo).None?;
  }

  /** How many words a statement emits. */
  function WordCount(s: Statement): nat {
    match s
    case Blank => 0
    case RType(_, _, _, _) => 1
    case DType(_, _, _) => 1
    case LoadImmediate(_, _) => 2
    case Unparsed(_) => 0
  }

  /** The packing of one statement found on line lineNo. */
  function EncodeStatement(s: Statement, lineNo: nat): (r: Result<seq<nat>, AssemblerError>)
    requires Tokenised(s)
    ensures r.Failure? ==> r.error.line == lineNo
    ensures r.Success? ==> |r.value| == WordCount(s)
  {
    OpcodesFit();
    FunctsFit();
    RegistersFit();
    Pow2Values();
    match FirstUnknown(RegisterOperands(s), lineNo)
    case Some(e) => Failure(e)
    case None =>
      match s
      case Blank => Success([])
      case RType(instr, rd, rs, rt) =>
        assert RegisterOperands(s)[0] == rd && RegisterOperands(s)[1] == rs && RegisterOperands(s)[2] == rt;
        Success([EncodeR(Registers[rs], Registers[rt], Registers[rd], Functs[instr])])
      case DType(instr, rt, immed) =>
        assert RegisterOperands(s)[0] == rt;
        (match CheckMaxSignedValue(immed, lineNo)
         case Some(e) => Failure(e)
         case None => Success([EncodeI(Opcodes[instr], 0, Registers[rt], UnsignedInt(immed))]))
      case LoadImmediate(rt, immed) =>
        assert RegisterOperands(s)[0] == rt;
        (match CheckMaxUnsignedValue(immed, lineNo)
         case Some(e) => Failure(e)
         case None =>
           var (high, lo) := SplitImmediate(UnsignedInt(immed));
           Success([EncodeI(Opcodes["lui"], 0, Registers[rt], high),
                    EncodeI(Opcodes["ori"], Registers[rt], Registers[rt], lo)]))
      case Unparsed(text) => Failure(AssemblerError(lineNo, CannotParse(text)))
  }

  /** Every word a line packs into fits in 16 bits. */
  lemma EncodedWordsFit(s: Statement, lineNo: nat)
    requires Tokenised(s)
    requires EncodeStatement(s, lineNo).Success?
    ensures forall i :: 0 <= i < |EncodeStatement(s, lineNo).value| ==> EncodeStatement(s, lineNo).value[i] < Pow2(TotalBitLength)
  {
    OpcodesFit();
    FunctsFit();
    RegistersFit();
    Pow2Values();
  }

  /** A line fails to pack exactly when it could not be parsed, names a
      register that does not exist, or carries an immediate out of range. */
  lemma EncodeStatementFails(s: Statement, lineNo: nat)
    requires Tokenised(s)
    ensures EncodeStatement(s, lineNo).Failure? <==>
              s.Unparsed? || (exists i :: 0 <= i < |RegisterOperands(s)| && RegisterOperands(s)[i] !in Registers)
              || (s.DType? && (s.immed < -32 || s.immed > 31))
              || (s.LoadImmediate? && (s.immed < 0 || s.immed > 63))
  {
  }

  predicate AllTokenised(stmts: seq<Statement>) {
    forall i :: 0 <= i < |stmts| ==> Tokenised(stmts[i])
  }

  /** The whole file: the statements in order, the i-th on line i + 1, each
      appending its words; the first line that fails aborts with its error. */
  function Assembled(stmts: seq<Statement>): Result<seq<nat>, AssemblerError>
    requires AllTokenised(stmts)
  {
    if |stmts| == 0 then Success([])
    else
      var k := |stmts| - 1;
      match Assembled(stmts[..k])
      case Failure(e) => Failure(e)
      case Success(ws) =>
        match EncodeStatement(stmts[k], k + 1)
        case Failure(e) => Failure(e)
        case Success(more) => Success(ws + more)
  }

  /** Appending a line that packs appends its words. */
  lemma AssembledSnoc(stmts: seq<Statement>, s: Statement, ws: seq<nat>, more: seq<nat>)
    requires AllTokenised(stmts) && Tokenised(s)
    requires Assembled(stmts) == Success(ws) && EncodeStatement(s, |stmts| + 1) == Success(more)
    ensures AllTokenised(stmts + [s])
    ensures Assembled(stmts + [s]) == Success(ws + more)
  {
    TokenisedSnoc(stmts, s);
    TakeOfAppend(stmts, [s]);
    assert (stmts + [s])[|stmts|] == s;
  }

  lemma TokenisedSnoc(stmts: seq<Statement>, s: Statement)
    requires AllTokenised(stmts) && Tokenised(s)
    ensures AllTokenised(stmts + [s])
  {
    assert forall i :: 0 <= i < |stmts| ==> (stmts + [s])[i] == stmts[i];
  }

  /** The number of words a sequence of statements emits. */
  function TotalWords(stmts: seq<Statement>): nat {
    if |stmts| == 0 then 0 else TotalWords(stmts[..|stmts| - 1]) + WordCount(stmts[|stmts| - 1])
  }

  /** assemble_instructions: walks the lines with a running line number and
      raises at the first line that cannot be assembled. */
  method AssembleInstructions(stmts: seq<Statement>) returns (res: Result<seq<nat>, AssemblerError>)
    requires AllTokenised(stmts)
    ensures res == Assembled(stmts)
  {
    var instructions: seq<nat> := [];
    var lineNo: nat := 1;
    var i := 0;
    while i < |stmts|
      invariant 0 <= i <= |stmts|
      invariant lineNo == i + 1
      invariant Assembled(stmts[..i]) == Success(instructions)
    {
      TakeSnoc(stmts, i);
      var encoded := EncodeStatement(stmts[i], lineNo);
      if encoded.Failure? {
        FailureSticks(stmts, i + 1);
        return Failure(encoded.error);
      }
      instructions := instructions + encoded.value;
      lineNo := lineNo + 1;
      i := i + 1;
    }
    TakeAll(stmts);
    res := Success(instructions);
  }

  /** Once a prefix fails, the whole file fails with the same error. */
  lemma {:induction false} FailureSticks(stmts: seq<Statement>, n: nat)
    requires AllTokenised(stmts) && n <= |stmts|
    requires Assembled(stmts[..n]).Failure?
    ensures Assembled(stmts) == Assembled(stmts[..n])
  {
    if n == |stmts| {
      TakeAll(stmts);
    } else {
      var k := |stmts| - 1;
      TakeTake(stmts, k, n);
      FailureSticks(stmts[..k], n);
    }
  }

  /** A file assembles exactly when every line does on its own. */
  lemma {:induction false} AssembledSucceeds(stmts: seq<Statement>)
    requires AllTokenised(stmts)
    ensures Assembled(stmts).Success? <==>
            forall i :: 0 <= i < |stmts| ==> EncodeStatement(stmts[i], i + 1).Success?
  {
    if |stmts| > 0 {
      AssembledLast(stmts);
      AssembledSucceeds(stmts[..|stmts| - 1]);
      EncodesLast(stmts, stmts[..|stmts| - 1]);
    }
  }

  /** Every line of a non-empty file packs when every line before the last
      does and the last one does. */
  lemma EncodesLast(stmts: seq<Statement>, prefix: seq<Statement>)
    requires AllTokenised(stmts) && |stmts| > 0 && prefix == stmts[..|stmts| - 1]
    ensures AllTokenised(prefix)
    ensures (forall i :: 0 <= i < |stmts| ==> EncodeStatement(stmts[i], i + 1).Success?) <==>
            (forall i :: 0 <= i < |prefix| ==> EncodeStatement(prefix[i], i + 1).Success?)
            && EncodeStatement(stmts[|prefix|], |stmts|).Success?
  {
    assert forall i :: 0 <= i < |prefix| ==> prefix[i] == stmts[i];
  }

  /** Assembled on a non-empty file succeeds when the lines before the last
      do and the last one packs. */
  lemma AssembledLast(stmts: seq<Statement>)
    requires AllTokenised(stmts) && |stmts| > 0
    ensures AllTokenised(stmts[..|stmts| - 1])
    ensures Assembled(stmts).Success? <==>
              Assembled(stmts[..|stmts| - 1]).Success? && EncodeStatement(stmts[|stmts| - 1], |stmts|).Success?
  {
  }

  /** A failure reports the first bad line: it lies within the file, that
      line's own error is the one reported, and every earlier line packs. */
  lemma {:induction false} AssembledFirstError(stmts: seq<Statement>)
    requires AllTokenised(stmts)
    requires Assembled(stmts).Failure?
    ensures var e := Assembled(stmts).error;
            1 <= e.line <= |stmts| && EncodeStatement(stmts[e.line - 1], e.line) == Failure(e)
            && forall j :: 0 <= j < e.line - 1 ==> EncodeStatement(stmts[j], j + 1).Success?
  {
    var k := |stmts| - 1;
    assert forall i :: 0 <= i < k ==> stmts[..k][i] == stmts[i];
    if Assembled(stmts[..k]).Failure? {
      AssembledFirstError(stmts[..k]);
    } else {
      AssembledSucceeds(stmts[..k]);
    }
  }

  /** Where the words of statement i start: the count emitted before it. */
  function Offset(stmts: seq<Statement>, i: nat): nat
    requires i <= |stmts|
  {
    TotalWords(stmts[..i])
  }

  lemma OffsetStep(stmts: seq<Statement>, i: nat)
    requires i < |stmts|
    ensures Offset(stmts, i + 1) == Offset(stmts, i) + WordCount(stmts[i])
  {
    TakeSnoc(stmts, i);
  }

  lemma OffsetPrefix(stmts: seq<Statement>, k: nat, i: nat)
    requires i <= k <= |stmts|
    ensures Offset(stmts[..k], i) == Offset(stmts, i)
  {
    TakeTake(stmts, k, i);
  }

  /** Every word of an assembled file fits in 16 bits, and there are as many
      as the statements emit between them. */
  lemma {:induction false} AssembledWordsFit(stmts: seq<Statement>)
    requires AllTokenised(stmts)
    requires Assembled(stmts).Success?
    ensures |Assembled(stmts).value| == TotalWords(stmts)
    ensures forall i :: 0 <= i < |Assembled(stmts).value| ==> Assembled(stmts).value[i] < Pow2(TotalBitLength)
  {
    if |stmts| > 0 {
      AssembledWordsFit(stmts[..|stmts| - 1]);
      EncodedWordsFit(stmts[|stmts| - 1], |stmts|);
    }
  }

  /** On success the words are laid out statement by statement, in order:
      statement i owns the slice that starts at Offset(stmts, i) and holds
      exactly its own encoding. */
  lemma AssembledLayout(stmts: seq<Statement>)
    requires AllTokenised(stmts)
    requires Assembled(stmts).Success?
    ensures forall i :: 0 <= i < |stmts| ==>
              EncodeStatement(stmts[i], i + 1).Success?
              && Offset(stmts, i) + WordCount(stmts[i]) <= |Assembled(stmts).value|
              && Assembled(stmts).value[Offset(stmts, i)..Offset(stmts, i) + WordCount(stmts[i])]
                 == EncodeStatement(stmts[i], i + 1).value
  {
    forall i | 0 <= i < |stmts|
      ensures EncodeStatement(stmts[i], i + 1).Success?
      ensures Offset(stmts, i) + WordCount(stmts[i]) <= |Assembled(stmts).value|
      ensures Assembled(stmts).value[Offset(stmts, i)..Offset(stmts, i) + WordCount(stmts[i])]
              == EncodeStatement(stmts[i], i + 1).value
    {
      LayoutAt(stmts, i, Assembled(stmts).value);
    }
  }

  /** AssembledLayout for one statement, by induction on the file. */
  lemma {:induction false} LayoutAt(stmts: seq<Statement>, i: nat, words: seq<nat>)
    requires AllTokenised(stmts) && i < |stmts|
    requires Assembled(stmts) == Success(words)
    ensures Offset(stmts, i) + WordCount(stmts[i]) <= |words|
    ensures Tokenised(stmts[i])
    ensures EncodeStatement(stmts[i], i + 1).Success?
    ensures words[Offset(stmts, i)..Offset(stmts, i) + WordCount(stmts[i])] == EncodeStatement(stmts[i], i + 1).value
    decreases |stmts|, 1
  {
    if i < |stmts| - 1 {
      LayoutEarlier(stmts, i, words);
    } else {
      LayoutLast(stmts, words);
    }
  }

  /** The last line owns the words after those of the lines before it. */
  lemma LayoutLast(stmts: seq<Statement>, words: seq<nat>)
    requires AllTokenised(stmts) && |stmts| > 0
    requires Assembled(stmts) == Success(words)
    ensures Offset(stmts, |stmts| - 1) + WordCount(stmts[|stmts| - 1]) <= |words|
    ensures Tokenised(stmts[|stmts| - 1])
    ensures EncodeStatement(stmts[|stmts| - 1], |stmts|).Success?
    ensures words[Offset(stmts, |stmts| - 1)..Offset(stmts, |stmts| - 1) + WordCount(stmts[|stmts| - 1])]
            == EncodeStatement(stmts[|stmts| - 1], |stmts|).value
  {
    var k := |stmts| - 1;
    var ws, more := LastWords(stmts);
    SliceOfSuffix(words, ws, more, Offset(stmts, k), Offset(stmts, k) + WordCount(stmts[k]));
  }

  /** A line before the last keeps the slice it owns in the lines before
      the last. */
  lemma {:induction false} LayoutEarlier(stmts: seq<Statement>, i: nat, words: seq<nat>)
    requires AllTokenised(stmts) && i < |stmts| - 1
    requires Assembled(stmts) == Success(words)
    ensures Offset(stmts, i) + WordCount(stmts[i]) <= |words|
    ensures Tokenised(stmts[i])
    ensures EncodeStatement(stmts[i], i + 1).Success?
    ensures words[Offset(stmts, i)..Offset(stmts, i) + WordCount(stmts[i])] == EncodeStatement(stmts[i], i + 1).value
    decreases |stmts|, 0
  {
    var k := |stmts| - 1;
    var ws, more := SplitLast(stmts);
    LayoutAt(stmts[..k], i, ws);
    assert stmts[..k][i] == stmts[i];
    OffsetPrefix(stmts, k, i);
    SliceOfPrefix(words, ws, more, Offset(stmts, i), Offset(stmts, i) + WordCount(stmts[i]));
  }

  /** An assembled file is its prefix's words and then its last line's. */
  lemma SplitLast(stmts: seq<Statement>) returns (ws: seq<nat>, more: seq<nat>)
    requires AllTokenised(stmts) && |stmts| > 0 && Assembled(stmts).Success?
    ensures AllTokenised(stmts[..|stmts| - 1])
    ensures Assembled(stmts[..|stmts| - 1]) == Success(ws)
    ensures EncodeStatement(stmts[|stmts| - 1], |stmts|) == Success(more)
    ensures Assembled(stmts).value == ws + more
    ensures |ws| == Offset(stmts, |stmts| - 1) && |more| == WordCount(stmts[|stmts| - 1])
  {
    var k := |stmts| - 1;
    AssembledLast(stmts);
    ws := Assembled(stmts[..k]).value;
    more := EncodeStatement(stmts[k], k + 1).value;
    AssembledWordsFit(stmts[..k]);
  }

  /** SplitLast without the facts about the lines before the last. */
  lemma LastWords(stmts: seq<Statement>) returns (ws: seq<nat>, more: seq<nat>)
    requires AllTokenised(stmts) && |stmts| > 0 && Assembled(stmts).Success?
    ensures EncodeStatement(stmts[|stmts| - 1], |stmts|) == Success(more)
    ensures Assembled(stmts).value == ws + more
    ensures |ws| == Offset(stmts, |stmts| - 1) && |more| == WordCount(stmts[|stmts| - 1])
  {
    ws, more := SplitLast(stmts);
  }

  lemma SliceOfSuffix(all: seq<nat>, a: seq<nat>, b: seq<nat>, lo: nat, hi: nat)
    requires all == a + b && lo == |a| && hi == lo + |b|
    ensures hi <= |all| && all[lo..hi] == b
  {
    assert forall j :: 0 <= j < |b| ==> (a + b)[|a| + j] == b[j];
  }

  lemma SliceOfPrefix(all: seq<nat>, a: seq<nat>, b: seq<nat>, lo: nat, hi: nat)
    requires all == a + b && lo <= hi <= |a|
    ensures hi <= |all| && all[lo..hi] == a[lo..hi]
  {
    assert forall j :: lo <= j < hi ==> (a + b)[j] == a[j];
  }

  /** The object file output_to_binary writes for a word list: one line of
      16 binary digits per word, in order. */
  function Rendered(words: seq<nat>): (lines: seq<string>)
    ensures |lines| == |words|
    ensures forall i :: 0 <= i < |lines| ==> lines[i] == Bits(words[i], TotalBitLength)
  {
    if |words| == 0 then [] else Rendered(words[..|words| - 1]) + [Bits(words[|words| - 1], TotalBitLength)]
  }

  lemma RenderedTwo(w0: nat, w1: nat)
    ensures Rendered([w0, w1]) == [Bits(w0, TotalBitLength), Bits(w1, TotalBitLength)]
  {
    assert [w0, w1][..1] == [w0];
    assert [w0][..0] == [];
  }

  /** Writing out a concatenation writes out each part in turn. */
  lemma {:induction false} RenderedAppend(a: seq<nat>, b: seq<nat>)
    ensures Rendered(a + b) == Rendered(a) + Rendered(b)
    decreases |b|
  {
    if |b| == 0 {
      AppendEmpty(a, b);
    } else {
      var k := |b| - 1;
      InitOfAppend(a, b);
      RenderedAppend(a, b[..k]);
    }
  }

  lemma RenderedFour(w1: seq<nat>, w2: seq<nat>, w3: seq<nat>, w4: seq<nat>)
    ensures Rendered(w1 + w2 + w3 + w4) == Rendered(w1) + Rendered(w2) + Rendered(w3) + Rendered(w4)
  {
    RenderedAppend(w1 + w2 + w3, w4);
    RenderedAppend(w1 + w2, w3);
    RenderedAppend(w1, w2);
  }

  /** Reading the object file back: each line is 16 binary digits whose
      value is its word. */
  lemma RenderedReadsBack(words: seq<nat>)
    requires forall i :: 0 <= i < |words| ==> words[i] < Pow2(TotalBitLength)
    ensures forall i :: 0 <= i < |words| ==>
              |Rendered(words)[i]| == TotalBitLength && IsBinary(Rendered(words)[i])
              && BinaryValue(Rendered(words)[i]) == words[i]
  {
    forall i | 0 <= i < |words|
      ensures |Rendered(words)[i]| == TotalBitLength && IsBinary(Rendered(words)[i])
              && BinaryValue(Rendered(words)[i]) == words[i]
    {
      BinaryValueOfBits(words[i], TotalBitLength);
      DivModUnique(words[i], Pow2(TotalBitLength), 0, words[i]);
    }
  }

  /** output_to_binary: each word as a line of 16 binary digits, most
      significant first, whose value is the word. */
  method OutputToBinary(instructions: seq<nat>) returns (lines: seq<string>)
    requires forall i :: 0 <= i < |instructions| ==> instructions[i] < Pow2(TotalBitLength)
    ensures lines == Rendered(instructions)
    ensures forall i :: 0 <= i < |lines| ==>
              |lines[i]| == TotalBitLength && IsBinary(lines[i]) && BinaryValue(lines[i]) == instructions[i]
  {
    lines := [];
    var i := 0;
    while i < |instructions|
      invariant 0 <= i <= |instructions|
      invariant lines == Rendered(instructions[..i])
    {
      TakeSnoc(instructions, i);
      lines := lines + [Bits(instructions[i], TotalBitLength)];
      i := i + 1;
    }
    assert instructions[..i] == instructions;
    RenderedReadsBack(instructions);
  }
}
