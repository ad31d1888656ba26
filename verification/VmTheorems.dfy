/** What the virtual machine's encodings and whole runs satisfy. */
module VmTheorems {
  import opened Bits
  import opened VmCore
  import opened VmMachine

  // ---- runs ----

  /**
   Every run ends: after k fetches the program counter has advanced by 8k, all
   fetches lay inside memory, a returned 0 means the machine halted and any
   other returned code is a soft error.
   */
  lemma {:induction false} RunsEnd(m: Machine, mem: seq<Byte>, was: Decoded)
    requires m.Ok() && |mem| == MEM_SIZE && m.state == Running
    ensures var r := Run(m, mem, was);
            && (r.fetches > 0 ==> m.pc + INSTRUCTION_SIZE * (r.fetches - 1) <= MEMORY_LIMIT)
            && r.machine.pc == m.pc + INSTRUCTION_SIZE * r.fetches
            && r.fetches <= (if m.pc > MEMORY_LIMIT then 0 else (MEMORY_LIMIT - m.pc) / INSTRUCTION_SIZE + 1)
            && (r.ending == Returned(EXIT_SUCCESS) ==> r.machine.state == Halted)
            && (r.ending.Returned? && r.ending.code != EXIT_SUCCESS ==>
                  r.ending.code >= ERR_STACK_OVERFLOW && r.machine.state == SoftError)
            && (r.ending.Exited? ==> r.ending.code == ERR_OPCODE_NOT_FOUND && r.machine.state == FatalError)
            && m.out <= r.machine.out
    decreases Unfetched(m.pc)
  {
    hide Decode, Named, Execute;
    if m.pc <= MEMORY_LIMIT {
      var instruction := mem[m.pc..m.pc + INSTRUCTION_SIZE];
      var fetched := m.(pc := m.pc + INSTRUCTION_SIZE);
      var d := Decode(was, instruction);
      if Named(instruction[0]) {
        var (m', status) := Execute(fetched, mem, d);
        ExecuteOnlyPrints(fetched, mem, d);
        if status == Code(EXIT_SUCCESS) && m'.state == Running {
          RunsEnd(m', mem, d);
        }
      }
    }
  }

  lemma ExecuteOnlyPrints(m: Machine, mem: seq<Byte>, d: Decoded)
    requires m.Ok() && |mem| == MEM_SIZE
    ensures m.out <= Execute(m, mem, d).0.out
  {
  }

  // ---- the instruction encoding ----

  function Le32Bytes(v: U32): (b: seq<Byte>)
    ensures |b| == 4
  {
    [v % 256, v / 256 % 256, v / 256 / 256 % 256, v / 256 / 256 / 256]
  }

  lemma Le32Inverse(v: U32)
    ensures Le32(Le32Bytes(v)) == v
  {
  }

  /** An instruction as eight bytes; bits 0 and 7 of the metadata byte are free. */
  function EncodeRaw(opcode: Byte, id0: Byte, id1: Byte, imm: U32,
                     destMode: nat, srcMode: nat, low: nat, high: nat): (b: seq<Byte>)
    requires destMode < 8 && srcMode < 8 && low < 2 && high < 2
    ensures |b| == INSTRUCTION_SIZE
  {
    [opcode, id0, id1] + Le32Bytes(imm) + [128 * high + 16 * destMode + 2 * srcMode + low]
  }

  lemma Modes(destMode: nat, srcMode: nat, low: nat, high: nat)
    requires destMode < 8 && srcMode < 8 && low < 2 && high < 2
    ensures SrcMode(128 * high + 16 * destMode + 2 * srcMode + low) == srcMode
    ensures DestMode(128 * high + 16 * destMode + 2 * srcMode + low) == destMode
  {
    var metadata := 128 * high + 16 * destMode + 2 * srcMode + low;
    ThreeBits();
    ShrIsDiv(metadata, 1);
    ModUnique(metadata, 2, 64 * high + 8 * destMode + srcMode, low);
    AndMask(64 * high + 8 * destMode + srcMode, 3);
    ModUnique(64 * high + 8 * destMode + srcMode, 8, 8 * high + destMode, srcMode);
    ShrIsDiv(metadata, 4);
    ModUnique(metadata, 16, 8 * high + destMode, 2 * srcMode + low);
    AndMask(8 * high + destMode, 3);
    ModUnique(8 * high + destMode, 8, high, destMode);
  }

  lemma ThreeBits()
    ensures Pow2(1) == 2 && Pow2(3) == 8 && Pow2(4) == 16
  {
  }

  /** What an operand of the given mode holds: a register id, a value, or both. */
  ghost predicate Holds(o: Operand, mode: nat, id: Byte, imm: U32) {
    && o.mode == mode
    && (mode in {AM_REG_DIRECT, AM_REG_INDIRECT, AM_BASE_OFFSET} ==> o.RegId() == id)
    && (mode in {AM_IMM_INT, AM_IMM_ADDR, AM_PC_RELATIVE} ==> o.word == imm)
    && (mode == AM_BASE_OFFSET ==> o.offset == imm)
  }

  /**
   Decoding is a left inverse of encoding, whatever the decoded structure held
   before and whatever the free metadata bits are.
   */
  lemma DecodeInvertsEncode(was: Decoded, opcode: Byte, id0: Byte, id1: Byte, imm: U32,
                            destMode: nat, srcMode: nat, low: nat, high: nat)
    requires Named(opcode) && destMode < 8 && srcMode < 8 && low < 2 && high < 2
    ensures var d := Decode(was, EncodeRaw(opcode, id0, id1, imm, destMode, srcMode, low, high));
            && d.opcode == opcode && d.metadataFlags == 128 * high + 16 * destMode + 2 * srcMode + low
            && (if OperandCount(opcode) >= 1 then Holds(d.op0, destMode, id0, imm) else d.op0.mode == AM_NONE)
            && (if OperandCount(opcode) == 2 then Holds(d.op1, srcMode, id1, imm) else d.op1.mode == AM_NONE)
  {
    var b := EncodeRaw(opcode, id0, id1, imm, destMode, srcMode, low, high);
    assert b[3..7] == Le32Bytes(imm);
    Le32Inverse(imm);
    Modes(destMode, srcMode, low, high);
    PopulateHolds(was.op0, destMode, id0, imm);
    PopulateHolds(was.op1, srcMode, id1, imm);
  }

  lemma PopulateHolds(was: Operand, mode: nat, id: Byte, imm: U32)
    ensures Holds(Populate(was, mode, id, imm), mode, id, imm)
  {
  }

  /** Bits 0 and 7 of the metadata byte reach only `metadataFlags`. */
  lemma FreeMetadataBits(was: Decoded, opcode: Byte, id0: Byte, id1: Byte, imm: U32,
                         destMode: nat, srcMode: nat, low: nat, high: nat)
    requires destMode < 8 && srcMode < 8 && low < 2 && high < 2
    ensures var d := Decode(was, EncodeRaw(opcode, id0, id1, imm, destMode, srcMode, low, high));
            var d' := Decode(was, EncodeRaw(opcode, id0, id1, imm, destMode, srcMode, 0, 0));
            d == d'.(metadataFlags := d.metadataFlags)
  {
    hide SrcMode, DestMode, Le32, Le32Bytes, Populate;
    Modes(destMode, srcMode, low, high);
    Modes(destMode, srcMode, 0, 0);
    assert EncodeRaw(opcode, id0, id1, imm, destMode, srcMode, low, high)[3..7]
        == EncodeRaw(opcode, id0, id1, imm, destMode, srcMode, 0, 0)[3..7];
  }

  // ---- the header ----

  function EncodeHeader(h: Header): (b: seq<Byte>)
    requires h.version < 65536
    ensures |b| == HEADER_BYTES
  {
    Le32Bytes(h.magic) + [h.version % 256, h.version / 256] + Le32Bytes(h.codeLen) + Le32Bytes(h.entryPoint)
    + Le32Bytes(h.rodataLen) + Le32Bytes(h.dataLen)
  }

  lemma FieldsOf(m: seq<Byte>, v: seq<Byte>, c: seq<Byte>, e: seq<Byte>, r: seq<Byte>, d: seq<Byte>)
    requires |m| == |c| == |e| == |r| == |d| == 4 && |v| == 2
    ensures var b := m + v + c + e + r + d;
            && b[0..4] == m && b[4..6] == v && b[6..10] == c
            && b[10..14] == e && b[14..18] == r && b[18..22] == d
  {
    var b := m + v + c + e + r + d;
    assert b == m + (v + (c + (e + (r + d))));
    assert b[4..] == v + (c + (e + (r + d)));
    assert b[6..] == c + (e + (r + d));
    assert b[10..] == e + (r + d);
    assert b[14..] == r + d;
  }

  lemma HeaderRoundTrip(h: Header)
    requires h.version < 65536
    ensures HeaderOf(EncodeHeader(h)) == h
  {
    hide Le32, Le32Bytes;
    FieldsOf(Le32Bytes(h.magic), [h.version % 256, h.version / 256], Le32Bytes(h.codeLen), Le32Bytes(h.entryPoint),
             Le32Bytes(h.rodataLen), Le32Bytes(h.dataLen));
    Le32Inverse(h.magic);
    Le32Inverse(h.codeLen);
    Le32Inverse(h.entryPoint);
    Le32Inverse(h.rodataLen);
    Le32Inverse(h.dataLen);
  }

  // ---- straight-line programs ----

  datatype Source = FromReg(id: Byte) | Immediate(value: U32) | Absolute(address: U32) | Indirect(id: Byte)

  datatype Instruction =
    | Mov(dest: Byte, source: Source)
    | PrintChr(id: Byte)
    | PrintStrAt(address: U32)
    | PrintStrIndirect(id: Byte)
    | Halt

  predicate ValidId(id: Byte) { id < 8 }

  predicate ValidInstruction(i: Instruction) {
    match i
    case Mov(dest, FromReg(id)) => ValidId(dest) && ValidId(id)
    case Mov(dest, Indirect(id)) => ValidId(dest) && ValidId(id)
    case Mov(dest, _) => ValidId(dest)
    case PrintChr(id) => ValidId(id)
    case PrintStrIndirect(id) => ValidId(id)
    case _ => true
  }

  function Encode(i: Instruction): (b: seq<Byte>)
    ensures |b| == INSTRUCTION_SIZE
  {
    match i
    case Mov(dest, FromReg(id)) => EncodeRaw(OP_MOV, dest, id, 0, AM_REG_DIRECT, AM_REG_DIRECT, 0, 0)
    case Mov(dest, Immediate(v)) => EncodeRaw(OP_MOV, dest, 0, v, AM_REG_DIRECT, AM_IMM_INT, 0, 0)
    case Mov(dest, Absolute(a)) => EncodeRaw(OP_MOV, dest, 0, a, AM_REG_DIRECT, AM_IMM_ADDR, 0, 0)
    case Mov(dest, Indirect(id)) => EncodeRaw(OP_MOV, dest, id, 0, AM_REG_DIRECT, AM_REG_INDIRECT, 0, 0)
    case PrintChr(id) => EncodeRaw(OP_PRINT_CHR, id, 0, 0, AM_REG_DIRECT, 0, 0, 0)
    case PrintStrAt(a) => EncodeRaw(OP_PRINT_STR, 0, 0, a, AM_IMM_ADDR, 0, 0, 0)
    case PrintStrIndirect(id) => EncodeRaw(OP_PRINT_STR, id, 0, 0, AM_REG_INDIRECT, 0, 0, 0)
    case Halt => EncodeRaw(OP_HALT, 0, 0, 0, 0, 0, 0, 0)
  }

  function EncodeAll(program: seq<Instruction>): (b: seq<Byte>)
    ensures |b| == INSTRUCTION_SIZE * |program|
  {
    if program == [] then [] else Encode(program[0]) + EncodeAll(program[1..])
  }

  /** How an interpretation of a list ends: at a Halt, in an error, undefined, or at the end of the list. */
  datatype Verdict = Stopped | Failed(code: nat) | Broken | RanOff

  datatype Result = Result(regs: seq<U32>, out: seq<Byte>, verdict: Verdict)

  /** The value a source stands for, in a memory that does not change. */
  datatype Value = Value(v: U32) | NoValue(verdict: Verdict)

  function Loaded(mem: seq<Byte>, address: nat): Value {
    if address > MEM_SIZE then NoValue(Failed(ERR_MEMORY_OUT_OF_BOUNDS))
    else if address + 4 <= |mem| then Value(ReadU32(mem, address))
    else NoValue(Broken)
  }

  function Evaluate(regs: seq<U32>, mem: seq<Byte>, source: Source): Value
    requires |regs| == 8 && (source.FromReg? || source.Indirect? ==> ValidId(source.id))
  {
    match source
    case FromReg(id) => Value(regs[id])
    case Immediate(v) => Value(v)
    case Absolute(a) => Loaded(mem, a)
    case Indirect(id) => Loaded(mem, regs[id])
  }

  function Printed(mem: seq<Byte>, address: nat): Text {
    if address >= |mem| then Text([])
    else
      var t := StringAt(mem, address);
      if t.NoEnd? then t else Text(t.bytes + [NEWLINE])
  }

  /** The meaning of one instruction: go on with new registers and output, or end. */
  datatype Effect = GoOn(regs: seq<U32>, out: seq<Byte>) | End(verdict: Verdict)

  function EffectOf(i: Instruction, regs: seq<U32>, out: seq<Byte>, mem: seq<Byte>): (e: Effect)
    requires |regs| == 8 && ValidInstruction(i)
    ensures e.GoOn? ==> |e.regs| == 8
  {
    match i
    case Mov(dest, source) =>
      (match Evaluate(regs, mem, source)
       case Value(v) => GoOn(regs[dest := v], out)
       case NoValue(verdict) => End(verdict))
    case PrintChr(id) => GoOn(regs, out + [regs[id] % 256])
    case PrintStrAt(a) => PrintEffect(Printed(mem, a), regs, out)
    case PrintStrIndirect(id) => PrintEffect(Printed(mem, regs[id]), regs, out)
    case Halt => End(Stopped)
  }

  function PrintEffect(text: Text, regs: seq<U32>, out: seq<Byte>): Effect {
    if text.NoEnd? then End(Broken) else GoOn(regs, out + text.bytes)
  }

  /** The interpreter over the instruction list. */
  function Interpret(program: seq<Instruction>, regs: seq<U32>, out: seq<Byte>, mem: seq<Byte>): (r: Result)
    requires |regs| == 8 && forall i | i in program :: ValidInstruction(i)
    ensures |r.regs| == 8
    decreases |program|
  {
    if program == [] then Result(regs, out, RanOff)
    else
      assert ValidInstruction(program[0]);
      match EffectOf(program[0], regs, out, mem)
      case GoOn(regs', out') => Interpret(program[1..], regs', out', mem)
      case End(verdict) => Result(regs, out, verdict)
  }

  /** The encoded program stands in memory at `pc`. */
  ghost predicate StandsAt(mem: seq<Byte>, pc: nat, program: seq<Instruction>) {
    pc + INSTRUCTION_SIZE * |program| <= |mem| && mem[pc..pc + INSTRUCTION_SIZE * |program|] == EncodeAll(program)
  }

  lemma StandsNext(mem: seq<Byte>, pc: nat, program: seq<Instruction>)
    requires StandsAt(mem, pc, program) && program != []
    ensures mem[pc..pc + INSTRUCTION_SIZE] == Encode(program[0])
    ensures StandsAt(mem, pc + INSTRUCTION_SIZE, program[1..])
  {
    var all := mem[pc..pc + INSTRUCTION_SIZE * |program|];
    assert all[..INSTRUCTION_SIZE] == Encode(program[0]) && all[INSTRUCTION_SIZE..] == EncodeAll(program[1..]);
    assert all[..INSTRUCTION_SIZE] == mem[pc..pc + INSTRUCTION_SIZE];
    assert all[INSTRUCTION_SIZE..]
        == mem[pc + INSTRUCTION_SIZE..pc + INSTRUCTION_SIZE + INSTRUCTION_SIZE * |program[1..]|];
  }

  /** Executing the decoded encoding of a move. */
  lemma ExecuteMov(was: Decoded, m: Machine, mem: seq<Byte>, dest: Byte, source: Source)
    requires m.Ok() && |mem| == MEM_SIZE && ValidInstruction(Mov(dest, source))
    ensures Execute(m, mem, Decode(was, Encode(Mov(dest, source)))) ==
            match Evaluate(m.regs, mem, source)
            case Value(v) => (m.(regs := m.regs[dest := v]), Code(EXIT_SUCCESS))
            case NoValue(verdict) => (m, if verdict.Failed? then Code(verdict.code) else Undefined)
  {
    match source
    case FromReg(id) => DecodeInvertsEncode(was, OP_MOV, dest, id, 0, AM_REG_DIRECT, AM_REG_DIRECT, 0, 0);
    case Immediate(v) => DecodeInvertsEncode(was, OP_MOV, dest, 0, v, AM_REG_DIRECT, AM_IMM_INT, 0, 0);
    case Absolute(a) => DecodeInvertsEncode(was, OP_MOV, dest, 0, a, AM_REG_DIRECT, AM_IMM_ADDR, 0, 0);
    case Indirect(id) => DecodeInvertsEncode(was, OP_MOV, dest, id, 0, AM_REG_DIRECT, AM_REG_INDIRECT, 0, 0);
  }

  lemma PrintedString(m: Machine, mem: seq<Byte>, address: nat)
    requires m.Ok() && |mem| == MEM_SIZE
    ensures (if address < MEM_SIZE then PrintString(m, mem, address) else (m, Code(EXIT_SUCCESS))) ==
            match Printed(mem, address)
            case NoEnd => (m.(out := m.out + mem[address..]), Undefined)
            case Text(bytes) => (m.(out := m.out + bytes), Code(EXIT_SUCCESS))
  {
    if address < MEM_SIZE && StringAt(mem, address).Text? {
      assert m.out + StringAt(mem, address).bytes + [NEWLINE] == m.out + (StringAt(mem, address).bytes + [NEWLINE]);
    } else {
      assert m.out + [] == m.out;
    }
  }

  /** Executing the decoded encoding of a string print. */
  lemma ExecutePrintStr(was: Decoded, m: Machine, mem: seq<Byte>, i: Instruction)
    requires m.Ok() && |mem| == MEM_SIZE && ValidInstruction(i) && (i.PrintStrAt? || i.PrintStrIndirect?)
    ensures Execute(m, mem, Decode(was, Encode(i))) ==
            var address := if i.PrintStrAt? then i.address else m.regs[i.id];
            match Printed(mem, address)
            case NoEnd => (m.(out := m.out + mem[address..]), Undefined)
            case Text(bytes) => (m.(out := m.out + bytes), Code(EXIT_SUCCESS))
  {
    if i.PrintStrAt? {
      DecodeInvertsEncode(was, OP_PRINT_STR, 0, 0, i.address, AM_IMM_ADDR, 0, 0, 0);
      PrintedString(m, mem, i.address);
    } else {
      DecodeInvertsEncode(was, OP_PRINT_STR, i.id, 0, 0, AM_REG_INDIRECT, 0, 0, 0);
      PrintedString(m, mem, m.regs[i.id]);
    }
  }

  /** What executing an instruction with the given effect yields. */
  ghost predicate Executed(m: Machine, e: Effect, r: (Machine, Status)) {
    match e
    case GoOn(regs, out) => r == (m.(regs := regs, out := out), Code(EXIT_SUCCESS))
    case End(Stopped) => r == (m.(state := Halted), Code(EXIT_SUCCESS))
    case End(Failed(code)) => r == (m, Code(code))
    case End(_) => r.1 == Undefined
  }

  /** Executing what an encoded instruction decodes to has the instruction's effect. */
  lemma ExecuteEncoded(was: Decoded, m: Machine, mem: seq<Byte>, i: Instruction)
    requires m.Ok() && |mem| == MEM_SIZE && ValidInstruction(i)
    ensures Executed(m, EffectOf(i, m.regs, m.out, mem), Execute(m, mem, Decode(was, Encode(i))))
    ensures Named(Encode(i)[0])
  {
    hide Execute, Decode;
    match i
    case Mov(dest, source) =>
      ExecuteMov(was, m, mem, dest, source);
      EndsAreErrors(i, m.regs, m.out, mem);
    case PrintStrAt(_) => ExecutePrintStr(was, m, mem, i);
    case PrintStrIndirect(_) => ExecutePrintStr(was, m, mem, i);
    case PrintChr(id) => ExecuteSimple(was, m, mem, i);
    case Halt => ExecuteSimple(was, m, mem, i);
  }

  lemma ExecuteSimple(was: Decoded, m: Machine, mem: seq<Byte>, i: Instruction)
    requires m.Ok() && |mem| == MEM_SIZE && ValidInstruction(i) && (i.PrintChr? || i.Halt?)
    ensures Execute(m, mem, Decode(was, Encode(i))) ==
            (if i.PrintChr? then m.(out := m.out + [m.regs[i.id] % 256]) else m.(state := Halted), Code(EXIT_SUCCESS))
  {
    hide Decode, EncodeRaw, And, Shr, Pow2;
    if i.PrintChr? {
      DecodeInvertsEncode(was, OP_PRINT_CHR, i.id, 0, 0, AM_REG_DIRECT, 0, 0, 0);
    } else {
      DecodeInvertsEncode(was, OP_HALT, 0, 0, 0, 0, 0, 0, 0);
    }
  }

  /** The structure instructions are decoded into, once a list of them has been. */
  function DecodedAfter(program: seq<Instruction>, was: Decoded): Decoded
    decreases |program|
  {
    if program == [] then was else DecodedAfter(program[1..], Decode(was, Encode(program[0])))
  }

  /** The run that goes on behind a list, with the registers and the output the list left. */
  function Behind(program: seq<Instruction>, m: Machine, mem: seq<Byte>, was: Decoded, result: Result): Outcome
    requires |result.regs| == 8 && |mem| == MEM_SIZE && m.state == Running
    requires m.pc + INSTRUCTION_SIZE * |program| <= MEMORY_LIMIT
  {
    var end := m.(pc := m.pc + INSTRUCTION_SIZE * |program|, regs := result.regs, out := result.out);
    var rest := Run(end, mem, DecodedAfter(program, was));
    rest.(fetches := |program| + rest.fetches)
  }

  /** A run and an interpretation end alike; where the list has no end, the run goes on behind it. */
  ghost predicate Agree(run: Outcome, result: Result, behind: Outcome) {
    match result.verdict
    case Stopped => run.ending == Returned(EXIT_SUCCESS) && run.machine.state == Halted
                    && run.machine.regs == result.regs && run.machine.out == result.out
    case Failed(code) => run.ending == Returned(code) && run.machine.state == SoftError
                    && run.machine.regs == result.regs && run.machine.out == result.out
    case Broken => run.ending == Crashed
    case RanOff => run == behind
  }

  ghost predicate Runnable(program: seq<Instruction>, m: Machine, mem: seq<Byte>) {
    && m.Ok() && |mem| == MEM_SIZE && m.state == Running
    && (forall i | i in program :: ValidInstruction(i))
    && StandsAt(mem, m.pc, program) && m.pc + INSTRUCTION_SIZE * |program| <= MEMORY_LIMIT
  }

  /** The first instruction, where it ends the program. */
  lemma EndAgrees(program: seq<Instruction>, m: Machine, mem: seq<Byte>, was: Decoded)
    requires Runnable(program, m, mem) && program != [] && EffectOf(program[0], m.regs, m.out, mem).End?
    ensures var result := Interpret(program, m.regs, m.out, mem);
            Agree(Run(m, mem, was), result, Behind(program, m, mem, was, result))
  {
    hide Execute, Decode, Encode, EffectOf, StandsAt, ValidInstruction, Named, Behind;
    assert ValidInstruction(program[0]);
    StandsNext(mem, m.pc, program);
    ExecuteEncoded(was, m.(pc := m.pc + INSTRUCTION_SIZE), mem, program[0]);
    EndsAreErrors(program[0], m.regs, m.out, mem);
  }

  /** The first instruction, where the program goes on behind it. */
  lemma GoesOn(program: seq<Instruction>, m: Machine, mem: seq<Byte>, was: Decoded)
    returns (next: Machine, d: Decoded)
    requires Runnable(program, m, mem) && program != [] && EffectOf(program[0], m.regs, m.out, mem).GoOn?
    ensures next.Ok() && next.pc == m.pc + INSTRUCTION_SIZE && next.state == Running
    ensures EffectOf(program[0], m.regs, m.out, mem) == GoOn(next.regs, next.out)
    ensures var rest := Run(next, mem, d);
            Run(m, mem, was) == rest.(fetches := rest.fetches + 1) && d == Decode(was, Encode(program[0]))
  {
    hide Decode, Encode, Execute, EffectOf, StandsAt, ValidInstruction, Named;
    assert ValidInstruction(program[0]);
    StandsNext(mem, m.pc, program);
    d := Decode(was, Encode(program[0]));
    var fetched := m.(pc := m.pc + INSTRUCTION_SIZE);
    ExecuteEncoded(was, fetched, mem, program[0]);
    next := Execute(fetched, mem, d).0;
  }

  /** Running an encoded list and interpreting the list agree, from any place in memory. */
  lemma {:induction false} RunRefinesInterpreter(program: seq<Instruction>, m: Machine, mem: seq<Byte>, was: Decoded)
    requires m.Ok() && |mem| == MEM_SIZE && m.state == Running
    requires forall i | i in program :: ValidInstruction(i)
    requires StandsAt(mem, m.pc, program) && m.pc + INSTRUCTION_SIZE * |program| <= MEMORY_LIMIT
    ensures var result := Interpret(program, m.regs, m.out, mem);
            Agree(Run(m, mem, was), result, Behind(program, m, mem, was, result))
    decreases |program|
  {
    hide Run, Execute, Decode, Encode, EffectOf, StandsAt, ValidInstruction;
    if program == [] {
      assert DecodedAfter(program, was) == was;
    } else if EffectOf(program[0], m.regs, m.out, mem).End? {
      EndAgrees(program, m, mem, was);
    } else {
      var next, d := GoesOn(program, m, mem, was);
      StandsNext(mem, m.pc, program);
      RunRefinesInterpreter(program[1..], next, mem, d);
    }
  }

  lemma EndsAreErrors(i: Instruction, regs: seq<U32>, out: seq<Byte>, mem: seq<Byte>)
    requires |regs| == 8 && ValidInstruction(i)
    ensures EffectOf(i, regs, out, mem) in {End(Stopped), End(Broken), End(Failed(ERR_MEMORY_OUT_OF_BOUNDS))}
         || EffectOf(i, regs, out, mem).GoOn?
  {
  }

  /** The image of a program: a header with entry point 0 and the encoded instructions. */
  function ImageOf(program: seq<Instruction>): seq<Byte>
    requires INSTRUCTION_SIZE * |program| <= CODE_SIZE
  {
    EncodeHeader(Header(0x564D4259, SUPPORTED_VERSION, INSTRUCTION_SIZE * |program|, 0, 0, 0)) + EncodeAll(program)
  }

  /** load_bytecode puts a program's image at the start of memory, with the program counter on it. */
  lemma ImageLoads(program: seq<Instruction>, mem: seq<Byte>)
    requires 0 < INSTRUCTION_SIZE * |program| <= CODE_SIZE && |mem| == MEM_SIZE
    ensures var file := ImageOf(program);
            && Loads(file) && HeaderOf(file[..HEADER_BYTES]).entryPoint == 0
            && StandsAt(WithCode(mem, CodeOf(file)), 0, program)
  {
    var h := Header(0x564D4259, SUPPORTED_VERSION, INSTRUCTION_SIZE * |program|, 0, 0, 0);
    var file := ImageOf(program);
    assert file[..HEADER_BYTES] == EncodeHeader(h);
    HeaderRoundTrip(h);
    assert CodeOf(file) == EncodeAll(program);
    var mem' := WithCode(mem, EncodeAll(program));
    assert mem'[0..INSTRUCTION_SIZE * |program|] == EncodeAll(program);
  }

  /** From file to final state: loading and running an image agrees with interpreting the list. */
  lemma ImageRefinesInterpreter(program: seq<Instruction>, m: Machine, mem: seq<Byte>, was: Decoded)
    requires m.Ok() && |mem| == MEM_SIZE && 0 < INSTRUCTION_SIZE * |program| <= CODE_SIZE
    requires forall i | i in program :: ValidInstruction(i)
    ensures Loads(ImageOf(program))
    ensures var mem' := WithCode(mem, CodeOf(ImageOf(program)));
            var m0, result := m.(state := Running, pc := 0), Interpret(program, m.regs, m.out, mem');
            Agree(Run(m0, mem', was), result, Behind(program, m0, mem', was, result))
  {
    ImageLoads(program, mem);
    RunRefinesInterpreter(program, m.(state := Running, pc := 0), WithCode(mem, CodeOf(ImageOf(program))), was);
  }

  /** A program with a Halt never runs off its end. */
  lemma {:induction false} HaltStops(program: seq<Instruction>, regs: seq<U32>, out: seq<Byte>, mem: seq<Byte>)
    requires |regs| == 8 && (forall i | i in program :: ValidInstruction(i)) && Halt in program
    ensures !Interpret(program, regs, out, mem).verdict.RanOff?
    decreases |program|
  {
    assert ValidInstruction(program[0]);
    if program[0] != Halt {
      match EffectOf(program[0], regs, out, mem) {
        case GoOn(regs', out') => HaltStops(program[1..], regs', out', mem);
        case End(_) => EndsAreErrors(program[0], regs, out, mem);
      }
    }
  }
}
