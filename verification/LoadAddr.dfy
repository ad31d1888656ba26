/** What an encoded LOAD_ADDR does: the handler asks the mode of its destination, not of its source. */
module LoadAddr {
  import opened Bits
  import opened VmCore
  import opened VmTheorems

  /** The bytes of an instruction: two ids, an immediate shared by both operands, and two modes. */
  datatype Fields = Fields(id0: Byte, id1: Byte, imm: U32, destMode: nat, srcMode: nat) {
    predicate Ok() { destMode < 8 && srcMode < 8 }
  }

  /** Execute the instruction, decoded into a structure that held `was`. */
  function Loading(was: Decoded, m: Machine, mem: seq<Byte>, f: Fields): (Machine, Status)
    requires m.Ok() && |mem| == MEM_SIZE && f.Ok()
  {
    Execute(m, mem, Decode(was, EncodeRaw(OP_LOAD_ADDR, f.id0, f.id1, f.imm, f.destMode, f.srcMode, 0, 0)))
  }

  const WITH_VALUE := {AM_IMM_INT, AM_IMM_ADDR, AM_PC_RELATIVE}
  const WITH_ID := {AM_REG_DIRECT, AM_REG_INDIRECT, AM_BASE_OFFSET}

  /** The word the second operand holds: its immediate only in the modes that have one, else what was left there. */
  function SourceWord(was: Decoded, f: Fields): U32 {
    if f.srcMode in WITH_VALUE then f.imm
    else if f.srcMode in WITH_ID then was.op1.word - was.op1.word % 256 + f.id1
    else was.op1.word
  }

  /**
   Every destination mode. With an immediate there the register is the low byte of the immediate, with
   base and offset the low byte of the second operand's word, which is `id1` if the source mode has an id.
   */
  lemma LoadAddrMeaning(was: Decoded, m: Machine, mem: seq<Byte>, f: Fields)
    requires m.Ok() && |mem| == MEM_SIZE && f.Ok()
    ensures var (r, word, reg) := (Loading(was, m, mem, f), SourceWord(was, f), f.imm % 256);
            if f.destMode == AM_IMM_ADDR then
              r == if word >= MEM_SIZE then (m, Code(ERR_MEMORY_OUT_OF_BOUNDS)) else SetReg(m, reg, word)
            else if f.destMode == AM_PC_RELATIVE then
              r == SetReg(m, reg, (m.pc + word) % TWO_TO_THE_32)
            else if f.destMode == AM_BASE_OFFSET then
              var src := word % 256;
              r == if src >= 8 then (m, Undefined)
                   else if m.regs[src] >= MEM_SIZE || (m.regs[src] + word) % TWO_TO_THE_32 >= MEM_SIZE then
                     (m, Code(ERR_MEMORY_OUT_OF_BOUNDS))
                   else SetReg(m, src, (m.regs[src] + word) % TWO_TO_THE_32)
            else if f.destMode == AM_REG_INDIRECT then
              r == if f.id0 >= 8 then (m, Undefined)
                   else if m.regs[f.id0] >= MEM_SIZE then (m, Code(ERR_MEMORY_OUT_OF_BOUNDS))
                   else (m, Code(EXIT_SUCCESS))
            else r == (m, Code(EXIT_SUCCESS))
  {
    hide Decode, EncodeRaw, SourceWord, And, Shr, Pow2;
    DecodedFields(was, f);
    if f.destMode == AM_REG_INDIRECT && f.id0 < 8 {
      assert m.regs[f.id0 := m.regs[f.id0]] == m.regs;
    }
  }

  lemma DecodedFields(was: Decoded, f: Fields)
    requires f.Ok()
    ensures var d := Decode(was, EncodeRaw(OP_LOAD_ADDR, f.id0, f.id1, f.imm, f.destMode, f.srcMode, 0, 0));
            && d.opcode == OP_LOAD_ADDR && d.op1.word == SourceWord(was, f)
            && Holds(d.op0, f.destMode, f.id0, f.imm)
  {
    var b := EncodeRaw(OP_LOAD_ADDR, f.id0, f.id1, f.imm, f.destMode, f.srcMode, 0, 0);
    assert b[3..7] == Le32Bytes(f.imm);
    Le32Inverse(f.imm);
    Modes(f.destMode, f.srcMode, 0, 0);
    DecodeInvertsEncode(was, OP_LOAD_ADDR, f.id0, f.id1, f.imm, f.destMode, f.srcMode, 0, 0);
  }

  ghost predicate Changes(was: Decoded, m: Machine, mem: seq<Byte>, f: Fields)
    requires |mem| == MEM_SIZE
  {
    m.Ok() && f.Ok() && Loading(was, m, mem, f).0.regs != m.regs
  }

  /** The documented form, with a register as destination, never changes anything. */
  lemma RegisterDestinationDoesNothing(was: Decoded, m: Machine, mem: seq<Byte>, f: Fields)
    requires m.Ok() && |mem| == MEM_SIZE && f.Ok() && f.destMode == AM_REG_DIRECT
    ensures Loading(was, m, mem, f) == (m, Code(EXIT_SUCCESS))
  {
    LoadAddrMeaning(was, m, mem, f);
  }

  lemma OtherModesKeepRegisters(was: Decoded, m: Machine, mem: seq<Byte>, f: Fields)
    requires |mem| == MEM_SIZE && Changes(was, m, mem, f)
    ensures f.destMode in {AM_IMM_ADDR, AM_BASE_OFFSET, AM_PC_RELATIVE}
  {
    hide Loading;
    LoadAddrMeaning(was, m, mem, f);
  }

  /** With immediate 1 on a machine of zeros, register 1 becomes 1 whatever the ids are. */
  lemma StoringExample(destMode: nat, mem: seq<Byte>) returns (was: Decoded, m: Machine, f: Fields)
    requires |mem| == MEM_SIZE && destMode in {AM_IMM_ADDR, AM_BASE_OFFSET, AM_PC_RELATIVE}
    ensures f.destMode == destMode && Changes(was, m, mem, f)
  {
    hide Loading;
    was := Decoded(0, 0, Operand(0, 0, 0), Operand(0, 0, 0));
    m, f := Machine(Running, [0, 0, 0, 0, 0, 0, 0, 0], 0, []), Fields(0, 0, 1, destMode, AM_IMM_INT);
    LoadAddrMeaning(was, m, mem, f);
    assert SourceWord(was, f) == 1;
    assert Loading(was, m, mem, f).0.regs[1] == 1;
  }

  /** Some LOAD_ADDR with this destination mode changes a register iff the mode is one of three. */
  lemma ModesThatStore(destMode: nat, mem: seq<Byte>)
    requires destMode < 8 && |mem| == MEM_SIZE
    ensures (exists was, m, f: Fields :: f.destMode == destMode && Changes(was, m, mem, f))
       <==> destMode in {AM_IMM_ADDR, AM_BASE_OFFSET, AM_PC_RELATIVE}
  {
    hide Changes;
    forall was, m: Machine, f: Fields | f.destMode == destMode && Changes(was, m, mem, f)
      ensures destMode in {AM_IMM_ADDR, AM_BASE_OFFSET, AM_PC_RELATIVE}
    {
      OtherModesKeepRegisters(was, m, mem, f);
    }
    if destMode in {AM_IMM_ADDR, AM_BASE_OFFSET, AM_PC_RELATIVE} {
      var was, m, f := StoringExample(destMode, mem);
    }
  }
}
