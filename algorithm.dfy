/** The executor (algorithm.py): decodes each object-file line by bit
    slices, looks the codes up in reverse, and updates the register file
    `r`; `bth` runs the radix-4 Booth multiplier of the Booth module. */
module Algorithm {
  import opened Wrappers
  import opened Common
  import Assembler
  import Booth

  /** The fields of one decoded word. */
  datatype Instr =
    | RInstr(rs: Reg, rt: Reg, rd: Reg, funct: nat)
    | IInstr(opcode: nat, rs: Reg, rt: Reg, immed: nat)

  /** An object-file line: the first 16 characters are binary digits (the
      newline after them is never looked at). */
  predicate WellFormedLine(line: string) {
    |line| >= TotalBitLength && IsBinary(line[..TotalBitLength])
  }

  /** The decoding of execute_instructions: opcode from [0:4], rs from [4:7],
      rt from [7:10], then rd [10:13] and funct [13:16] for opcode 0, the
      immediate [10:16] otherwise. */
  function DecodeLine(line: string): (i: Instr)
    requires WellFormedLine(line)
    ensures i.RInstr? ==> i.funct < Pow2(FunctBitLength)
    ensures i.IInstr? ==> 1 <= i.opcode < Pow2(OpBitLength) && i.immed < Pow2(ImmedBitLength)
  {
    Pow2Values();
    var opcode := BinaryValue(line[0..4]);
    var rs := BinaryValue(line[4..7]);
    var rt := BinaryValue(line[7..10]);
    if opcode == 0 then RInstr(rs, rt, BinaryValue(line[10..13]), BinaryValue(line[13..16]))
    else IInstr(opcode, rs, rt, BinaryValue(line[10..16]))
  }

  /** Decoding the 16-digit rendering of a packed R-type word gives back the
      packed fields. */
  lemma DecodeRenderingR(rs: Reg, rt: Reg, rd: Reg, funct: nat)
    requires funct < Pow2(FunctBitLength)
    ensures WellFormedLine(Bits(Assembler.EncodeR(rs, rt, rd, funct), TotalBitLength))
    ensures DecodeLine(Bits(Assembler.EncodeR(rs, rt, rd, funct), TotalBitLength)) == RInstr(rs, rt, rd, funct)
  {
    Pow2Values();
    var w := Assembler.EncodeR(rs, rt, rd, funct);
    var line := Bits(w, 16);
    assert line[..16] == line;
    BitsField(w, 16, 0, 4);
    BitsField(w, 16, 4, 7);
    BitsField(w, 16, 7, 10);
    BitsField(w, 16, 10, 13);
    BitsField(w, 16, 13, 16);
  }

  /** The same round trip for an I-type word. */
  lemma DecodeRenderingI(opcode: nat, rs: Reg, rt: Reg, immed: nat)
    requires 1 <= opcode < Pow2(OpBitLength) && immed < Pow2(ImmedBitLength)
    ensures WellFormedLine(Bits(Assembler.EncodeI(opcode, rs, rt, immed), TotalBitLength))
    ensures DecodeLine(Bits(Assembler.EncodeI(opcode, rs, rt, immed), TotalBitLength)) == IInstr(opcode, rs, rt, immed)
  {
    var w := Assembler.EncodeI(opcode, rs, rt, immed);
    var line := Bits(w, 16);
    assert line[..16] == line;
    assert BinaryValue(line[0..4]) == opcode by {
      Pow2Values();
      BitsField(w, 16, 0, 4);
      DivModUnique(opcode, 16, 0, opcode);
    }
    assert BinaryValue(line[4..7]) == rs by {
      Pow2Values();
      BitsField(w, 16, 4, 7);
    }
    assert BinaryValue(line[7..10]) == rt by {
      Pow2Values();
      BitsField(w, 16, 7, 10);
    }
    assert BinaryValue(line[10..16]) == immed by {
      Pow2Values();
      BitsField(w, 16, 10, 16);
    }
  }

  /** An R-type statement that the assembler accepts becomes one line that
      decodes to the funct of its mnemonic and the indices of its rs, rt and
      rd, in those fields. */
  lemma RTypeStatementDecodes(s: Assembler.Statement, lineNo: nat)
    requires Assembler.Tokenised(s) && s.RType? && Assembler.EncodeStatement(s, lineNo).Success?
    ensures s.rs in Registers && s.rt in Registers && s.rd in Registers
    ensures var w := Assembler.EncodeStatement(s, lineNo).value;
            |w| == 1 && WellFormedLine(Bits(w[0], TotalBitLength))
            && var i := DecodeLine(Bits(w[0], TotalBitLength));
               i.RInstr? && i.rs == Registers[s.rs] && i.rt == Registers[s.rt] && i.rd == Registers[s.rd]
               && i.funct == Functs[s.instr]
  {
    Assembler.EncodeStatementFails(s, lineNo);
    assert Assembler.RegisterOperands(s) == [s.rd, s.rs, s.rt];
    assert s.rd in Registers && s.rs in Registers && s.rt in Registers by {
      assert Assembler.RegisterOperands(s)[0] == s.rd;
      assert Assembler.RegisterOperands(s)[1] == s.rs;
      assert Assembler.RegisterOperands(s)[2] == s.rt;
    }
    RegistersFit();
    FunctsFit();
    DecodeRenderingR(Registers[s.rs], Registers[s.rt], Registers[s.rd], Functs[s.instr]);
  }

  /** An lw or sw statement that the assembler accepts becomes one line that
      decodes to its opcode, rs 0, the index of its register and a six-bit
      field holding its offset in two's complement. */
  lemma DTypeStatementDecodes(s: Assembler.Statement, lineNo: nat)
    requires Assembler.Tokenised(s) && s.DType? && Assembler.EncodeStatement(s, lineNo).Success?
    ensures s.rt in Registers && -32 <= s.immed <= 31
    ensures var w := Assembler.EncodeStatement(s, lineNo).value;
            |w| == 1 && WellFormedLine(Bits(w[0], TotalBitLength))
            && var i := DecodeLine(Bits(w[0], TotalBitLength));
               i.IInstr? && i.opcode == Opcodes[s.instr] && i.rs == 0 && i.rt == Registers[s.rt]
               && UnsignedToSigned(i.immed, ImmedBitLength) == s.immed
  {
    Assembler.EncodeStatementFails(s, lineNo);
    assert Assembler.RegisterOperands(s) == [s.rt];
    assert s.rt in Registers by {
      assert Assembler.RegisterOperands(s)[0] == s.rt;
    }
    RegistersFit();
    OpcodesFit();
    Pow2Values();
    DecodeRenderingI(Opcodes[s.instr], 0, Registers[s.rt], Assembler.UnsignedInt(s.immed));
  }

  // ---------------------------------------------------------------------
  // Bitwise OR on naturals, as Python's `|`

  /** Python's `|` on nonnegative integers, bit by bit from the bottom. */
  function BitOr(x: nat, y: nat): nat
    decreases x + y
  {
    if x == 0 then y
    else if y == 0 then x
    else 2 * BitOr(x / 2, y / 2) + (if x % 2 == 1 || y % 2 == 1 then 1 else 0)
  }

  /** Bit k of x, counting from the least significant. */
  function Bit(x: nat, k: nat): bool {
    (x / Pow2(k)) % 2 == 1
  }

  /** BitOr is the bitwise OR: bit k of the result is set exactly when bit k
      of either operand is. */
  lemma {:induction false} BitOrBits(x: nat, y: nat, k: nat)
    ensures Bit(BitOr(x, y), k) <==> Bit(x, k) || Bit(y, k)
    decreases k
  {
    if x == 0 {
      assert BitOr(x, y) == y;
      assert !Bit(x, k) by {
        DivModUnique(x, Pow2(k), 0, 0);
      }
    } else if y == 0 {
      assert BitOr(x, y) == x;
      assert !Bit(y, k) by {
        DivModUnique(y, Pow2(k), 0, 0);
      }
    } else if k == 0 {
      assert Pow2(0) == 1;
      assert BitOr(x, y) == 2 * BitOr(x / 2, y / 2) + (if x % 2 == 1 || y % 2 == 1 then 1 else 0);
    } else {
      var low := if x % 2 == 1 || y % 2 == 1 then 1 else 0;
      var z, o, p := BitOr(x / 2, y / 2), BitOr(x, y), Pow2(k - 1);
      assert Bit(o, k) == Bit(z, k - 1) by {
        assert o == 2 * z + low;
        assert Pow2(k) == 2 * p;
        DivModUnique(o, 2, z, low);
        DivDiv(o, 2, p);
      }
      assert Bit(x, k) == Bit(x / 2, k - 1) by {
        assert Pow2(k) == 2 * p;
        DivDiv(x, 2, p);
      }
      assert Bit(y, k) == Bit(y / 2, k - 1) by {
        assert Pow2(k) == 2 * p;
        DivDiv(y, 2, p);
      }
      BitOrBits(x / 2, y / 2, k - 1);
    }
  }

  /** OR with a value below 2**n leaves every bit from n upwards alone and
      stays below 2**n when both operands do. */
  lemma {:induction false} BitOrLow(x: nat, y: nat, n: nat)
    requires y < Pow2(n)
    ensures BitOr(x, y) / Pow2(n) == x / Pow2(n)
    ensures x < Pow2(n) ==> BitOr(x, y) < Pow2(n)
    decreases n
  {
    if x == 0 {
      DivModUnique(y, Pow2(n), 0, y);
    } else if y == 0 {
    } else {
      assert n > 0;
      var low := if x % 2 == 1 || y % 2 == 1 then 1 else 0;
      var z := BitOr(x / 2, y / 2);
      BitOrLow(x / 2, y / 2, n - 1);
      DivDiv(2 * z + low, 2, Pow2(n - 1));
      DivModUnique(2 * z + low, 2, z, low);
      DivDiv(x, 2, Pow2(n - 1));
    }
  }

  // ---------------------------------------------------------------------
  // The effect of one word on the register file

  /** Why execution stops at a word. UnknownFunct and UnknownOpcode are the
      failing reverse look-ups (a ValueError in the source);
      BoothOperandTooWide is a bth whose rt or r3 does not fit in six bits,
      or whose rs does not fit in twelve, which this model does not follow. */
  datatype Fault = UnknownFunct(funct: nat) | UnknownOpcode(opcode: nat) | BoothOperandTooWide

  datatype Outcome = Next(regs: map<string, nat>) | Halt(fault: Fault)

  /** A register file with exactly the eight named registers. */
  predicate RegisterFile(regs: map<string, nat>) {
    regs.Keys == Registers.Keys
  }

  /** exec_rtype_instr and exec_immed_instr as a function of the register file. */
  function Execute(regs: map<string, nat>, instr: Instr): (o: Outcome)
    requires RegisterFile(regs)
    ensures o.Next? ==> RegisterFile(o.regs)
  {
    match instr
    case RInstr(rs, rt, rd, funct) =>
      (match FunctName(funct)
       case None => Halt(UnknownFunct(funct))
       case Some(f) =>
         var rsName, rtName, rdName := RegisterName(rs), RegisterName(rt), RegisterName(rd);
         if f == "bth" then
           if regs[rsName] < 4096 && regs[rtName] < 64 && regs["r3"] < 64 then
             Next(regs[rdName := Booth.Product(regs[rsName], regs[rtName], regs["r3"])])
           else
             Halt(BoothOperandTooWide)
         else if f == "sll" then Next(regs[rdName := regs[rsName] * Pow2(regs[rtName])])
         else Next(regs))
    case IInstr(opcode, rs, rt, immed) =>
      (match OpcodeName(opcode)
       case None => Halt(UnknownOpcode(opcode))
       case Some(op) =>
         var rtName := RegisterName(rt);
         if op == "lui" then Next(regs[rtName := immed])
         else if op == "ori" then Next(regs[rtName := BitOr(regs[rtName], immed)])
         else Next(regs))
  }

  /** The state after a word list, and the fault that stopped it, if any.
      After a fault the later words are not run. */
  datatype RunResult = RunResult(regs: map<string, nat>, fault: Option<Fault>)

  predicate WellFormedLines(lines: seq<string>) {
    forall i :: 0 <= i < |lines| ==> WellFormedLine(lines[i])
  }

  function Run(regs: map<string, nat>, lines: seq<string>): (res: RunResult)
    requires RegisterFile(regs) && WellFormedLines(lines)
    ensures RegisterFile(res.regs)
  {
    if |lines| == 0 then RunResult(regs, None)
    else
      var before := Run(regs, lines[..|lines| - 1]);
      if before.fault.Some? then before
      else
        match Execute(before.regs, DecodeLine(lines[|lines| - 1]))
        case Next(regs') => RunResult(regs', None)
        case Halt(f) => RunResult(before.regs, Some(f))
  }

  // ---------------------------------------------------------------------
  // The register file and the executor

  /** One pass of boothsRadix4's loop body: add the multiple of the
      multiplicand that the low three bits of A select, clear the carry out
      of 13 bits, and shift right by two with sign extension. */
  method RecodeStep(a: nat, rt: Booth.Operand, r3: Booth.Operand, b: nat, b2: nat, negB: nat, negB2: nat)
    returns (next: nat)
    requires a < Pow2(Booth.AccLen)
    requires b == rt * 128 && b2 == r3 * 128
    requires negB == TwosComplement(rt) * 128 && negB2 == TwosComplement(r3) * 128
    ensures next == Booth.Step(a, rt, r3)
  {
    var pad := a % 8;
    var sum := a;
    if pad == 1 || pad == 2 {
      sum := a + b;
    } else if pad == 3 {
      sum := a + b2;
    } else if pad == 4 {
      sum := a + negB2;
    } else if pad == 5 || pad == 6 {
      sum := a + negB;
    }
    assert sum == a + Booth.Addend(pad, rt, r3);
    // Clear the carry out of 13 bits.
    var c := sum;
    if c >= Pow2(Booth.AccLen) {
      c := c - Pow2(Booth.AccLen);
    }
    var msbSigned := IsMsbSigned(c, Booth.AccLen);
    next := c / 4;
    if msbSigned {
      next := next + (Pow2(Booth.AccLen) - Pow2(Booth.AccLen - 2));
    }
    Booth.StepByParts(a, rt, r3, sum, c, next);
  }

  class Machine {
    /** The register file `r`, keyed by register name. */
    var r: map<string, nat>

    ghost predicate Valid()
      reads this
    {
      RegisterFile(r)
    }

    /** Every register starts at 0. */
    constructor ()
      ensures Valid()
      ensures forall name :: name in r ==> r[name] == 0
    {
      r := map["s0" := 0, "r1" := 0, "r2" := 0, "r3" := 0, "r4" := 0, "r5" := 0, "r6" := 0, "r7" := 0];
    }

    /** boothsRadix4: three recode/add/shift steps on the 13-bit accumulator
        A, then the pad bit is dropped and the result written to rd. */
    method BoothsRadix4(rs: nat, rt: nat, rd: string)
      requires Valid() && rd in r
      requires rs < 4096 && rt < 64 && r["r3"] < 64
      modifies this
      ensures r == old(r)[rd := Booth.Product(rs, rt, old(r["r3"]))]
    {
      var r3 := r["r3"];
      var a: nat := 2 * rs;
      var b := rt * 128;
      var b2 := r3 * 128;
      var negB := TwosComplement(rt) * 128;
      var negB2 := TwosComplement(r3) * 128;
      var totNumShifts := Booth.BigLen / 2;
      var step := 1;
      while step <= totNumShifts
        invariant 1 <= step <= totNumShifts + 1
        invariant a == Booth.Acc(rs, rt, r3, step - 1)
        invariant r == old(r)
      {
        a := RecodeStep(a, rt, r3, b, b2, negB, negB2);
        assert Booth.Acc(rs, rt, r3, step) == Booth.Step(Booth.Acc(rs, rt, r3, step - 1), rt, r3);
        step := step + 1;
      }
      a := a / 2;  // drop the pad bit
      r := r[rd := a];
    }

    /** exec_rtype_instr: reverse look-up of the funct and the register
        names, then bth or sll; every other funct changes nothing. */
    method ExecRTypeInstr(rs: Reg, rt: Reg, rd: Reg, funct: nat) returns (fault: Option<Fault>)
      requires Valid()
      modifies this
      ensures Valid()
      ensures fault.None? ==> Execute(old(r), RInstr(rs, rt, rd, funct)) == Next(r)
      ensures fault.Some? ==> Execute(old(r), RInstr(rs, rt, rd, funct)) == Halt(fault.value) && r == old(r)
    {

      var f := FunctName(funct);
      if f.None? {
        return Some(UnknownFunct(funct));
      }
      var rsName, rtName, rdName := RegisterName(rs), RegisterName(rt), RegisterName(rd);
      if f.value == "bth" {
        if r[rsName] >= 4096 || r[rtName] >= 64 || r["r3"] >= 64 {
          return Some(BoothOperandTooWide);
        }
        BoothsRadix4(r[rsName], r[rtName], rdName);
      } else if f.value == "sll" {
        r := r[rdName := r[rsName] * Pow2(r[rtName])];
      }
      fault := None;
    }

    /** exec_immed_instr: reverse look-up of the opcode and rt's name, then
        lui overwrites rt and ori ORs the immediate into it; every other
        opcode changes nothing. */
    method ExecImmedInstr(opcode: nat, rs: Reg, rt: Reg, immed: nat) returns (fault: Option<Fault>)
      requires Valid()
      modifies this
      ensures Valid()
      ensures fault.None? ==> Execute(old(r), IInstr(opcode, rs, rt, immed)) == Next(r)
      ensures fault.Some? ==> Execute(old(r), IInstr(opcode, rs, rt, immed)) == Halt(fault.value) && r == old(r)
    {

      var op := OpcodeName(opcode);
      if op.None? {
        return Some(UnknownOpcode(opcode));
      }
      var rtName := RegisterName(rt);
      if op.value == "lui" {
        r := r[rtName := immed];
      } else if op.value == "ori" {
        r := r[rtName := BitOr(r[rtName], immed)];
      }
      fault := None;
    }

    /** The dispatch of execute_instructions on a decoded line: opcode 0 goes
        to exec_rtype_instr, every other opcode to exec_immed_instr. */
    method ExecInstr(instr: Instr) returns (fault: Option<Fault>)
      requires Valid()
      modifies this
      ensures Valid()
      ensures fault.None? ==> Execute(old(r), instr) == Next(r)
      ensures fault.Some? ==> Execute(old(r), instr) == Halt(fault.value) && r == old(r)
    {
      if instr.RInstr? {
        fault := ExecRTypeInstr(instr.rs, instr.rt, instr.rd, instr.funct);
      } else {
        fault := ExecImmedInstr(instr.opcode, instr.rs, instr.rt, instr.immed);
      }
    }

    /** execute_instructions: decode and run the lines in order; a failing
        look-up ends the run with the registers as the earlier lines left
        them. */
    method ExecuteInstructions(lines: seq<string>) returns (fault: Option<Fault>)
      requires Valid() && WellFormedLines(lines)
      modifies this
      ensures Valid()
      ensures Run(old(r), lines) == RunResult(r, fault)
    {
      var i := 0;
      while i < |lines|
        invariant 0 <= i <= |lines|
        invariant Valid()
        invariant Run(old(r), lines[..i]) == RunResult(r, None)
      {
        ghost var mid := r;
        fault := ExecInstr(DecodeLine(lines[i]));
        if fault.Some? {
          RunHaltsAt(old(r), lines, i, mid, fault.value);
          HaltIsFinal(old(r), lines, i + 1);
          return;
        }
        RunContinues(old(r), lines, i, mid, r);
        i := i + 1;
      }
      TakeAll(lines);
      fault := None;
    }
  }

  // ---------------------------------------------------------------------
  // Properties of the executor

  /** A line that executes extends the run of the lines before it. */
  lemma RunContinues(regs: map<string, nat>, lines: seq<string>, i: nat, mid: map<string, nat>, after: map<string, nat>)
    requires RegisterFile(regs) && WellFormedLines(lines) && i < |lines| && RegisterFile(mid)
    requires Run(regs, lines[..i]) == RunResult(mid, None)
    requires Execute(mid, DecodeLine(lines[i])) == Next(after)
    ensures Run(regs, lines[..i + 1]) == RunResult(after, None)
  {
    TakeSnocAppend(lines, i);
    WellFormedPrefix(lines, i);
    RunSnoc(regs, lines[..i], lines[i], mid);
  }

  /** The run of the lines up to a halting line ends at that line. */
  lemma RunHaltsAt(regs: map<string, nat>, lines: seq<string>, i: nat, mid: map<string, nat>, f: Fault)
    requires RegisterFile(regs) && WellFormedLines(lines) && i < |lines| && RegisterFile(mid)
    requires Run(regs, lines[..i]) == RunResult(mid, None)
    requires Execute(mid, DecodeLine(lines[i])) == Halt(f)
    ensures Run(regs, lines[..i + 1]) == RunResult(mid, Some(f))
  {
    TakeSnocAppend(lines, i);
    WellFormedPrefix(lines, i);
    RunSnoc(regs, lines[..i], lines[i], mid);
  }

  /** Run on a list with one more line after a prefix that did not halt. */
  lemma RunSnoc(regs: map<string, nat>, p: seq<string>, line: string, mid: map<string, nat>)
    requires RegisterFile(regs) && WellFormedLines(p) && WellFormedLine(line) && RegisterFile(mid)
    requires Run(regs, p) == RunResult(mid, None)
    ensures WellFormedLines(p + [line])
    ensures Execute(mid, DecodeLine(line)).Next? ==> Run(regs, p + [line]) == RunResult(Execute(mid, DecodeLine(line)).regs, None)
    ensures Execute(mid, DecodeLine(line)).Halt? ==> Run(regs, p + [line]) == RunResult(mid, Some(Execute(mid, DecodeLine(line)).fault))
  {
    var all := p + [line];
    Snoc(p, line);
    WellFormedSnoc(p, line);
    RunLast(regs, all);
  }

  lemma WellFormedPrefix(lines: seq<string>, i: nat)
    requires WellFormedLines(lines) && i < |lines|
    ensures WellFormedLines(lines[..i]) && WellFormedLine(lines[i])
  {
    forall j | 0 <= j < i ensures WellFormedLine(lines[..i][j]) {
      assert lines[..i][j] == lines[j];
    }
  }

  lemma WellFormedAppend(first: seq<string>, second: seq<string>)
    requires WellFormedLines(first) && WellFormedLines(second)
    ensures WellFormedLines(first + second)
  {
    var all := first + second;
    forall i | 0 <= i < |all| ensures WellFormedLine(all[i]) {
      if i >= |first| { assert all[i] == second[i - |first|]; } else { assert all[i] == first[i]; }
    }
  }

  lemma WellFormedSnoc(p: seq<string>, line: string)
    requires WellFormedLines(p) && WellFormedLine(line)
    ensures WellFormedLines(p + [line])
  {
    var all := p + [line];
    forall j | 0 <= j < |all| ensures WellFormedLine(all[j]) {
      if j < |p| { assert all[j] == p[j]; } else { assert all[j] == line; }
    }
  }

  /** Once a word has faulted, the words after it change nothing. */
  lemma {:induction false} HaltIsFinal(regs: map<string, nat>, lines: seq<string>, n: nat)
    requires RegisterFile(regs) && WellFormedLines(lines) && n <= |lines|
    requires Run(regs, lines[..n]).fault.Some?
    ensures Run(regs, lines) == Run(regs, lines[..n])
  {
    if n == |lines| {
      TakeAll(lines);
    } else {
      var k := |lines| - 1;
      TakeTake(lines, k, n);
      WellFormedPrefix(lines, k);
      HaltIsFinal(regs, lines[..k], n);
      StopsAfterFault(regs, lines);
    }
  }

  /** One unfolding of Run: a run that has already faulted ignores its last line. */
  lemma StopsAfterFault(regs: map<string, nat>, lines: seq<string>)
    requires RegisterFile(regs) && WellFormedLines(lines) && |lines| > 0
    requires Run(regs, lines[..|lines| - 1]).fault.Some?
    ensures Run(regs, lines) == Run(regs, lines[..|lines| - 1])
  {
  }

  /** Running two word lists one after the other is running their
      concatenation; a fault in the first list ends the run there. */
  lemma {:induction false} RunAppend(regs: map<string, nat>, first: seq<string>, second: seq<string>)
    requires RegisterFile(regs) && WellFormedLines(first) && WellFormedLines(second)
    ensures WellFormedLines(first + second)
    ensures Run(regs, first + second) ==
            if Run(regs, first).fault.Some? then Run(regs, first) else Run(Run(regs, first).regs, second)
    decreases |second|
  {
    var all := first + second;
    WellFormedAppend(first, second);
    if |second| == 0 {
      AppendEmpty(first, second);
    } else {
      var k := |second| - 1;
      InitOfAppend(first, second);
      WellFormedPrefix(second, k);
      RunAppend(regs, first, second[..k]);
      RunLast(regs, all);
      if Run(regs, first).fault.None? {
        RunLast(Run(regs, first).regs, second);
      }
    }
  }

  /** One unfolding of Run on a nonempty list. */
  lemma RunLast(regs: map<string, nat>, lines: seq<string>)
    requires RegisterFile(regs) && WellFormedLines(lines) && |lines| > 0
    ensures var before := Run(regs, lines[..|lines| - 1]);
            Run(regs, lines) ==
              if before.fault.Some? then before
              else match Execute(before.regs, DecodeLine(lines[|lines| - 1]))
                   case Next(regs') => RunResult(regs', None)
                   case Halt(f) => RunResult(before.regs, Some(f))
  {
  }

  /** What an I-type word does: an opcode outside the table stops the run;
      otherwise only register rt may change, lui sets it to the immediate,
      ori ORs the immediate into it (so a six-bit immediate leaves every bit
      above the low six as it was), and every other opcode leaves it. */
  lemma ImmedEffects(regs: map<string, nat>, opcode: nat, rs: Reg, rt: Reg, immed: nat)
    requires RegisterFile(regs)
    ensures Execute(regs, IInstr(opcode, rs, rt, immed)).Halt? <==> !(1 <= opcode <= 7)
    ensures 1 <= opcode <= 7 ==>
              var after := Execute(regs, IInstr(opcode, rs, rt, immed)).regs;
              var name := RegisterName(rt);
              (forall other :: other in regs && other != name ==> after[other] == regs[other])
              && after[name] == (if opcode == Opcodes["lui"] then immed
                                 else if opcode == Opcodes["ori"] then BitOr(regs[name], immed)
                                 else regs[name])
    ensures opcode == Opcodes["ori"] && immed < Pow2(ImmedBitLength) ==>
              Execute(regs, IInstr(opcode, rs, rt, immed)).regs[RegisterName(rt)] / Pow2(ImmedBitLength)
              == regs[RegisterName(rt)] / Pow2(ImmedBitLength)
  {
    assert Opcodes["lui"] == 4 && Opcodes["ori"] == 5;
    if opcode == Opcodes["ori"] && immed < Pow2(ImmedBitLength) {
      BitOrLow(regs[RegisterName(rt)], immed, ImmedBitLength);
    }
  }

  /** What an R-type word does: a funct outside the table stops the run, and
      so does a bth whose rt or r3 does not fit in six bits or whose rs does
      not fit in twelve; otherwise
      only register rd may change, bth sets it to the Booth product, sll to
      rs shifted left by rt, and every other funct leaves it. */
  lemma RTypeEffects(regs: map<string, nat>, rs: Reg, rt: Reg, rd: Reg, funct: nat)
    requires RegisterFile(regs)
    ensures var x, y := regs[RegisterName(rs)], regs[RegisterName(rt)];
            Execute(regs, RInstr(rs, rt, rd, funct)).Halt? <==>
              funct > 5 || (funct == Functs["bth"] && (x >= 4096 || y >= 64 || regs["r3"] >= 64))
    ensures Execute(regs, RInstr(rs, rt, rd, funct)).Next? ==>
              var after := Execute(regs, RInstr(rs, rt, rd, funct)).regs;
              var x, y, name := regs[RegisterName(rs)], regs[RegisterName(rt)], RegisterName(rd);
              (forall other :: other in regs && other != name ==> after[other] == regs[other])
              && after[name] == (if funct == Functs["bth"] then Booth.Product(x, y, regs["r3"])
                                 else if funct == Functs["sll"] then x * Pow2(y)
                                 else regs[name])
  {
    assert Functs["bth"] == 2 && Functs["sll"] == 3;
  }

  /** A bth word multiplies: when rt holds a 6-bit value in [-15, 15] and r3
      holds twice that value (the "2B" the source reads from r3), rd
      receives the 12-bit product of rs and rt. */
  lemma BthMultiplies(regs: map<string, nat>, rs: Reg, rt: Reg, rd: Reg)
    requires RegisterFile(regs)
    requires regs[RegisterName(rs)] < 64 && regs[RegisterName(rt)] < 64 && regs["r3"] < 64
    requires -15 <= UnsignedToSigned(regs[RegisterName(rt)], 6) <= 15
    requires UnsignedToSigned(regs["r3"], 6) == 2 * UnsignedToSigned(regs[RegisterName(rt)], 6)
    ensures Execute(regs, RInstr(rs, rt, rd, Functs["bth"])).Next?
    ensures UnsignedToSigned(Execute(regs, RInstr(rs, rt, rd, Functs["bth"])).regs[RegisterName(rd)], 12)
            == UnsignedToSigned(regs[RegisterName(rs)], 6) * UnsignedToSigned(regs[RegisterName(rt)], 6)
  {
    RTypeEffects(regs, rs, rt, rd, Functs["bth"]);
    Booth.BoothMultiplies(regs[RegisterName(rs)], regs[RegisterName(rt)], regs["r3"]);
  }

  /** The li pseudo-instruction loads its immediate: the two words it
      assembles to, once written out and executed, set register rt to the
      value and leave every other register alone. */
  lemma LiLoads(regs: map<string, nat>, name: string, v: nat, lineNo: nat)
    requires RegisterFile(regs) && Assembler.RegisterToken(name) && name in Registers && v <= 63
    ensures Assembler.EncodeStatement(Assembler.LoadImmediate(name, v), lineNo).Success?
    ensures var words := Assembler.EncodeStatement(Assembler.LoadImmediate(name, v), lineNo).value;
            WellFormedLines(Assembler.Rendered(words)) && Run(regs, Assembler.Rendered(words)) == RunResult(regs[name := v], None)
  {
    Assembler.LiExpansion(name, v, lineNo);
    var rt := Registers[name];
    RegisterNameOf(name);
    OpcodesFit();
    var lui := Assembler.EncodeI(Opcodes["lui"], 0, rt, 0);
    var ori := Assembler.EncodeI(Opcodes["ori"], rt, rt, v);
    Assembler.RenderedTwo(lui, ori);
    DecodeRenderingI(Opcodes["lui"], 0, rt, 0);
    DecodeRenderingI(Opcodes["ori"], rt, rt, v);
    LuiOriLoads(regs, rt, v, Bits(lui, TotalBitLength), Bits(ori, TotalBitLength));
  }

  /** The lui/ori pair with high half 0 loads the low half into rt. */
  lemma LuiOriLoads(regs: map<string, nat>, rt: Reg, v: nat, l0: string, l1: string)
    requires RegisterFile(regs) && WellFormedLine(l0) && WellFormedLine(l1)
    requires DecodeLine(l0) == IInstr(Opcodes["lui"], 0, rt, 0)
    requires DecodeLine(l1) == IInstr(Opcodes["ori"], rt, rt, v)
    ensures Run(regs, [l0, l1]) == RunResult(regs[RegisterName(rt) := v], None)
  {
    var name := RegisterName(rt);
    LuiStep(regs, rt, 0);
    OriStep(regs[name := 0], rt, rt, v);
    assert regs[name := 0][name := BitOr(0, v)] == regs[name := v];
    RunTwo(regs, l0, l1);
  }

  lemma LuiStep(regs: map<string, nat>, rt: Reg, immed: nat)
    requires RegisterFile(regs)
    ensures Execute(regs, IInstr(Opcodes["lui"], 0, rt, immed)) == Next(regs[RegisterName(rt) := immed])
  {
    assert OpcodeName(Opcodes["lui"]) == Some("lui");
  }

  lemma OriStep(regs: map<string, nat>, rs: Reg, rt: Reg, immed: nat)
    requires RegisterFile(regs)
    ensures Execute(regs, IInstr(Opcodes["ori"], rs, rt, immed))
            == Next(regs[RegisterName(rt) := BitOr(regs[RegisterName(rt)], immed)])
  {
    assert OpcodeName(Opcodes["ori"]) == Some("ori");
  }

  /** Run on a two-line list: the second word runs after the first. */
  lemma RunTwo(regs: map<string, nat>, l0: string, l1: string)
    requires RegisterFile(regs) && WellFormedLine(l0) && WellFormedLine(l1)
    ensures Execute(regs, DecodeLine(l0)).Next? ==>
              Run(regs, [l0, l1]) == match Execute(Execute(regs, DecodeLine(l0)).regs, DecodeLine(l1))
                                     case Next(regs') => RunResult(regs', None)
                                     case Halt(f) => RunResult(Execute(regs, DecodeLine(l0)).regs, Some(f))
  {
    assert [l0, l1][..1] == [l0];
    assert [l0][..0] == [];
    RunLast(regs, [l0]);
    RunLast(regs, [l0, l1]);
  }

  /** The register file of a freshly started executor. */
  const Zeroed: map<string, nat> :=
    map["s0" := 0, "r1" := 0, "r2" := 0, "r3" := 0, "r4" := 0, "r5" := 0, "r6" := 0, "r7" := 0]

  lemma ZeroedRegisterFile()
    ensures RegisterFile(Zeroed)
  {
  }

  /** A four-line program, assembled, written out and run from zeroed
      registers: li $r1 a, li $r2 b, li $r3 c, then bth $r4 $r1 $r2 leaves
      the Booth product of a and b (with c in r3 as "2B") in r4. */
  lemma ExampleProgram(a: nat, b: nat, c: nat)
    requires a <= 63 && b <= 63 && c <= 63
    ensures var prog := ExampleStatements(a, b, c);
            Assembler.AllTokenised(prog) && Assembler.Assembled(prog).Success?
            && WellFormedLines(Assembler.Rendered(Assembler.Assembled(prog).value))
            && Run(Zeroed, Assembler.Rendered(Assembler.Assembled(prog).value)).fault.None?
            && Run(Zeroed, Assembler.Rendered(Assembler.Assembled(prog).value)).regs
               == Zeroed["r1" := a]["r2" := b]["r3" := c]["r4" := Booth.Product(a, b, c)]
  {
    var p := Booth.Product(a, b, c);
    var w1, w2, w3, w4 := ExampleAssembles(a, b, c);
    var l1, l2, l3, z1, z2, z3 := ExampleLoads(a, b, c, w1, w2, w3);
    ExampleRuns(a, b, c, p, l1, l2, l3, w4, z1, z2, z3);
  }

  /** The example's four statements. */
  function ExampleStatements(a: nat, b: nat, c: nat): (prog: seq<Assembler.Statement>)
    ensures |prog| == 4
  {
    [Assembler.LoadImmediate("r1", a), Assembler.LoadImmediate("r2", b),
     Assembler.LoadImmediate("r3", c), Assembler.RType("bth", "r4", "r1", "r2")]
  }

  /** The example assembles to the words of its four statements in order. */
  lemma ExampleAssembles(a: nat, b: nat, c: nat) returns (w1: seq<nat>, w2: seq<nat>, w3: seq<nat>, w4: seq<nat>)
    requires a <= 63 && b <= 63 && c <= 63
    ensures Assembler.EncodeStatement(Assembler.LoadImmediate("r1", a), 1) == Success(w1)
    ensures Assembler.EncodeStatement(Assembler.LoadImmediate("r2", b), 2) == Success(w2)
    ensures Assembler.EncodeStatement(Assembler.LoadImmediate("r3", c), 3) == Success(w3)
    ensures (Pow2Values(); w4 == [Assembler.EncodeR(1, 2, 4, 2)])
    ensures Assembler.AllTokenised(ExampleStatements(a, b, c))
    ensures Assembler.Assembled(ExampleStatements(a, b, c)) == Success(w1 + w2 + w3 + w4)
    ensures Assembler.Rendered(Assembler.Assembled(ExampleStatements(a, b, c)).value)
            == Assembler.Rendered(w1) + Assembler.Rendered(w2) + Assembler.Rendered(w3) + Assembler.Rendered(w4)
  {
    var s1, s2, s3 := Assembler.LoadImmediate("r1", a), Assembler.LoadImmediate("r2", b), Assembler.LoadImmediate("r3", c);
    var s4 := Assembler.RType("bth", "r4", "r1", "r2");
    assert Assembler.Tokenised(s4) by {
      assert "bth" in Functs;
    }
    assert Assembler.EncodeStatement(s1, 1).Success? by {
      Assembler.LiExpansion("r1", a, 1);
    }
    assert Assembler.EncodeStatement(s2, 2).Success? by {
      Assembler.LiExpansion("r2", b, 2);
    }
    assert Assembler.EncodeStatement(s3, 3).Success? by {
      Assembler.LiExpansion("r3", c, 3);
    }
    assert (Pow2Values(); Assembler.EncodeStatement(s4, 4) == Success([Assembler.EncodeR(1, 2, 4, 2)])) by {
      BthWord(4);
    }
    AssembledFour(s1, s2, s3, s4);
    w1 := Assembler.EncodeStatement(s1, 1).value;
    w2 := Assembler.EncodeStatement(s2, 2).value;
    w3 := Assembler.EncodeStatement(s3, 3).value;
    w4 := Assembler.EncodeStatement(s4, 4).value;
    Assembler.RenderedFour(w1, w2, w3, w4);
  }

  /** Each li piece of the example, written out, loads its register: r1,
      r2 and r3 in turn. */
  lemma ExampleLoads(a: nat, b: nat, c: nat, w1: seq<nat>, w2: seq<nat>, w3: seq<nat>)
    returns (l1: seq<string>, l2: seq<string>, l3: seq<string>,
             z1: map<string, nat>, z2: map<string, nat>, z3: map<string, nat>)
    requires a <= 63 && b <= 63 && c <= 63
    requires Assembler.EncodeStatement(Assembler.LoadImmediate("r1", a), 1) == Success(w1)
    requires Assembler.EncodeStatement(Assembler.LoadImmediate("r2", b), 2) == Success(w2)
    requires Assembler.EncodeStatement(Assembler.LoadImmediate("r3", c), 3) == Success(w3)
    ensures l1 == Assembler.Rendered(w1) && l2 == Assembler.Rendered(w2) && l3 == Assembler.Rendered(w3)
    ensures z1 == Zeroed["r1" := a] && z2 == z1["r2" := b] && z3 == z2["r3" := c]
    ensures RegisterFile(z1) && RegisterFile(z2)
    ensures WellFormedLines(l1) && Run(Zeroed, l1) == RunResult(z1, None)
    ensures WellFormedLines(l2) && Run(z1, l2) == RunResult(z2, None)
    ensures WellFormedLines(l3) && Run(z2, l3) == RunResult(z3, None)
  {
    ZeroedRegisterFile();
    assert Assembler.RegisterToken("r1") && Assembler.RegisterToken("r2") && Assembler.RegisterToken("r3");
    z1 := Zeroed["r1" := a];
    z2 := z1["r2" := b];
    z3 := z2["r3" := c];
    LiRuns(Zeroed, "r1", a, 1, w1, z1);
    LiRuns(z1, "r2", b, 2, w2, z2);
    LiRuns(z2, "r3", c, 3, w3, z3);
    l1, l2, l3 := Assembler.Rendered(w1), Assembler.Rendered(w2), Assembler.Rendered(w3);
  }

  /** The program with 6, 3 and 6 (r3 holds twice rt, as the source's "2B"
      expects) leaves 18 = 6 * 3 in r4. */
  lemma ExampleSixTimesThreeProgram()
    ensures var prog := [Assembler.LoadImmediate("r1", 6), Assembler.LoadImmediate("r2", 3),
                         Assembler.LoadImmediate("r3", 6), Assembler.RType("bth", "r4", "r1", "r2")];
            Assembler.AllTokenised(prog) && Assembler.Assembled(prog).Success?
            && WellFormedLines(Assembler.Rendered(Assembler.Assembled(prog).value))
            && Run(Zeroed, Assembler.Rendered(Assembler.Assembled(prog).value)).fault.None?
            && Run(Zeroed, Assembler.Rendered(Assembler.Assembled(prog).value)).regs
               == Zeroed["r1" := 6]["r2" := 3]["r3" := 6]["r4" := 18]
  {
    ExampleProgram(6, 3, 6);
    Booth.ExampleSixTimesThree();
  }

  /** The bth statement of ExampleProgram packs to the R-type word for
      rs = r1, rt = r2, rd = r4 and funct 2. */
  lemma BthWord(lineNo: nat)
    ensures (Pow2Values();
             Assembler.EncodeStatement(Assembler.RType("bth", "r4", "r1", "r2"), lineNo)
             == Success([Assembler.EncodeR(1, 2, 4, 2)]))
  {
    Pow2Values();
    assert Assembler.FirstUnknown(["r4", "r1", "r2"], lineNo).None?;
  }

  /** Assembled on four statements that each pack. */
  lemma AssembledFour(s1: Assembler.Statement, s2: Assembler.Statement, s3: Assembler.Statement, s4: Assembler.Statement)
    requires Assembler.Tokenised(s1) && Assembler.Tokenised(s2) && Assembler.Tokenised(s3) && Assembler.Tokenised(s4)
    requires Assembler.EncodeStatement(s1, 1).Success? && Assembler.EncodeStatement(s2, 2).Success?
    requires Assembler.EncodeStatement(s3, 3).Success? && Assembler.EncodeStatement(s4, 4).Success?
    ensures Assembler.AllTokenised([s1, s2, s3, s4])
    ensures Assembler.Assembled([s1, s2, s3, s4])
            == Success(Assembler.EncodeStatement(s1, 1).value + Assembler.EncodeStatement(s2, 2).value
                       + Assembler.EncodeStatement(s3, 3).value + Assembler.EncodeStatement(s4, 4).value)
  {
    AssembledThree(s1, s2, s3);
    var p3 := [s1, s2, s3];
    Assembler.AssembledSnoc(p3, s4, Assembler.Assembled(p3).value, Assembler.EncodeStatement(s4, 4).value);
    assert p3 + [s4] == [s1, s2, s3, s4];
  }

  lemma AssembledThree(s1: Assembler.Statement, s2: Assembler.Statement, s3: Assembler.Statement)
    requires Assembler.Tokenised(s1) && Assembler.Tokenised(s2) && Assembler.Tokenised(s3)
    requires Assembler.EncodeStatement(s1, 1).Success? && Assembler.EncodeStatement(s2, 2).Success?
    requires Assembler.EncodeStatement(s3, 3).Success?
    ensures Assembler.AllTokenised([s1, s2, s3])
    ensures Assembler.Assembled([s1, s2, s3])
            == Success(Assembler.EncodeStatement(s1, 1).value + Assembler.EncodeStatement(s2, 2).value
                       + Assembler.EncodeStatement(s3, 3).value)
  {
    AssembledTwo(s1, s2);
    var p2 := [s1, s2];
    Assembler.AssembledSnoc(p2, s3, Assembler.Assembled(p2).value, Assembler.EncodeStatement(s3, 3).value);
    assert p2 + [s3] == [s1, s2, s3];
  }

  lemma AssembledTwo(s1: Assembler.Statement, s2: Assembler.Statement)
    requires Assembler.Tokenised(s1) && Assembler.Tokenised(s2)
    requires Assembler.EncodeStatement(s1, 1).Success? && Assembler.EncodeStatement(s2, 2).Success?
    ensures Assembler.AllTokenised([s1, s2])
    ensures Assembler.Assembled([s1, s2])
            == Success(Assembler.EncodeStatement(s1, 1).value + Assembler.EncodeStatement(s2, 2).value)
  {
    AssembledOne(s1);
    var p1 := [s1];
    Assembler.AssembledSnoc(p1, s2, Assembler.Assembled(p1).value, Assembler.EncodeStatement(s2, 2).value);
    assert p1 + [s2] == [s1, s2];
  }

  lemma AssembledOne(s1: Assembler.Statement)
    requires Assembler.Tokenised(s1) && Assembler.EncodeStatement(s1, 1).Success?
    ensures Assembler.AllTokenised([s1])
    ensures Assembler.Assembled([s1]) == Success(Assembler.EncodeStatement(s1, 1).value)
  {
    assert [s1][..0] == [];
    assert [] + Assembler.EncodeStatement(s1, 1).value == Assembler.EncodeStatement(s1, 1).value;
  }

  /** Running the example's object file, one statement's lines at a time. */
  lemma ExampleRuns(a: nat, b: nat, c: nat, p: nat, l1: seq<string>, l2: seq<string>, l3: seq<string>, w4: seq<nat>,
                    z1: map<string, nat>, z2: map<string, nat>, z3: map<string, nat>)
    requires a <= 63 && b <= 63 && c <= 63 && p == Booth.Product(a, b, c)
    requires z1 == Zeroed["r1" := a] && z2 == z1["r2" := b] && z3 == z2["r3" := c]
    requires RegisterFile(z1) && RegisterFile(z2)
    requires WellFormedLines(l1) && Run(Zeroed, l1) == RunResult(z1, None)
    requires WellFormedLines(l2) && Run(z1, l2) == RunResult(z2, None)
    requires WellFormedLines(l3) && Run(z2, l3) == RunResult(z3, None)
    requires (Pow2Values(); w4 == [Assembler.EncodeR(1, 2, 4, 2)])
    ensures WellFormedLines(l1 + l2 + l3 + Assembler.Rendered(w4))
    ensures Run(Zeroed, l1 + l2 + l3 + Assembler.Rendered(w4)).fault.None?
    ensures Run(Zeroed, l1 + l2 + l3 + Assembler.Rendered(w4)).regs == z3["r4" := p]
  {
    ZeroedRegisterFile();
    ExampleNames(z3, a, b, c);
    var l4 := Assembler.Rendered(w4);
    BthRuns(z3, 1, 2, 4, w4);
    var z4: map<string, nat> := z3["r4" := p];
    assert Run(z3, l4) == RunResult(z4, None);
    RunFour(Zeroed, l1, l2, l3, l4, z1, z2, z3, z4);
  }

  /** LiLoads for a statement whose words are already known. */
  lemma LiRuns(regs: map<string, nat>, name: string, v: nat, lineNo: nat, w: seq<nat>, next: map<string, nat>)
    requires RegisterFile(regs) && Assembler.RegisterToken(name) && name in Registers && v <= 63
    requires Assembler.EncodeStatement(Assembler.LoadImmediate(name, v), lineNo) == Success(w)
    requires next == regs[name := v]
    ensures WellFormedLines(Assembler.Rendered(w)) && Run(regs, Assembler.Rendered(w)) == RunResult(next, None)
  {
    LiLoads(regs, name, v, lineNo);
  }

  /** r1, r2 and r3 of the example's register file just before the bth. */
  lemma ExampleNames(z3: map<string, nat>, a: nat, b: nat, c: nat)
    requires z3 == Zeroed["r1" := a]["r2" := b]["r3" := c]
    ensures RegisterFile(z3) && z3["r1"] == a && z3["r2"] == b && z3["r3"] == c
    ensures RegisterName(1) == "r1" && RegisterName(2) == "r2" && RegisterName(4) == "r4"
  {
    assert "r1"[1] != "r2"[1] && "r1"[1] != "r3"[1] && "r2"[1] != "r3"[1];
  }

  /** Four program pieces run one after the other, none of them halting. */
  lemma RunFour(z0: map<string, nat>, l1: seq<string>, l2: seq<string>, l3: seq<string>, l4: seq<string>,
                z1: map<string, nat>, z2: map<string, nat>, z3: map<string, nat>, z4: map<string, nat>)
    requires RegisterFile(z0) && WellFormedLines(l1) && WellFormedLines(l2) && WellFormedLines(l3) && WellFormedLines(l4)
    requires Run(z0, l1) == RunResult(z1, None) && Run(z1, l2) == RunResult(z2, None)
    requires Run(z2, l3) == RunResult(z3, None) && Run(z3, l4) == RunResult(z4, None)
    ensures WellFormedLines(l1 + l2 + l3 + l4)
    ensures Run(z0, l1 + l2 + l3 + l4) == RunResult(z4, None)
  {
    RunAppend(z0, l1, l2);
    RunAppend(z0, l1 + l2, l3);
    RunAppend(z0, l1 + l2 + l3, l4);
  }

  /** A one-line program holding the bth word for rs, rt and rd writes the
      Booth product of those registers (with r3) to rd. */
  lemma BthRuns(regs: map<string, nat>, rs: Reg, rt: Reg, rd: Reg, w: seq<nat>)
    requires RegisterFile(regs)
    requires regs[RegisterName(rs)] < 4096 && regs[RegisterName(rt)] < 64 && regs["r3"] < 64
    requires (Pow2Values(); w == [Assembler.EncodeR(rs, rt, rd, 2)])
    ensures WellFormedLines(Assembler.Rendered(w))
    ensures Run(regs, Assembler.Rendered(w))
            == RunResult(regs[RegisterName(rd) := Booth.Product(regs[RegisterName(rs)], regs[RegisterName(rt)], regs["r3"])], None)
  {
    var x, y, z := regs[RegisterName(rs)], regs[RegisterName(rt)], regs["r3"];
    var next := regs[RegisterName(rd) := Booth.Product(x, y, z)];
    Pow2Values();
    var line := Bits(w[0], TotalBitLength);
    assert Assembler.Rendered(w) == [line] by {
      assert w[..0] == [];
    }
    assert WellFormedLine(line) && DecodeLine(line) == RInstr(rs, rt, rd, 2) by {
      DecodeRenderingR(rs, rt, rd, 2);
    }
    BthStep(regs, rs, rt, rd);
    assert Execute(regs, DecodeLine(line)) == Next(next);
    RunOne(regs, line);
  }

  /** A bth whose rs fits in twelve bits and whose rt and r3 fit in six
      writes the Booth product to rd. */
  lemma BthStep(regs: map<string, nat>, rs: Reg, rt: Reg, rd: Reg)
    requires RegisterFile(regs)
    requires regs[RegisterName(rs)] < 4096 && regs[RegisterName(rt)] < 64 && regs["r3"] < 64
    ensures Execute(regs, RInstr(rs, rt, rd, 2))
            == Next(regs[RegisterName(rd) := Booth.Product(regs[RegisterName(rs)], regs[RegisterName(rt)], regs["r3"])])
  {
    assert FunctName(2) == Some("bth");
  }

  /** Run on a one-line list. */
  lemma RunOne(regs: map<string, nat>, line: string)
    requires RegisterFile(regs) && WellFormedLine(line)
    ensures Execute(regs, DecodeLine(line)).Next? ==> Run(regs, [line]) == RunResult(Execute(regs, DecodeLine(line)).regs, None)
    ensures Execute(regs, DecodeLine(line)).Halt? ==> Run(regs, [line]) == RunResult(regs, Some(Execute(regs, DecodeLine(line)).fault))
  {
    assert [line][..0] == [];
    RunLast(regs, [line]);
  }
}
