/** What the virtual machine refuses, and what ends a run, with the numbers of the C code written out. */
module VmOutcomes {
  import opened Bits
  import opened VmCore
  import opened VmMachine
  import opened VmTheorems
  import opened Tokens
  import OperandTheorems

  // ---- strings in memory ----

  /** A string reaches to the first zero byte. */
  lemma {:induction false} StringEnds(mem: seq<Byte>, address: nat, end: nat)
    requires address <= end < |mem| && mem[end] == 0 && forall k | address <= k < end :: mem[k] != 0
    ensures StringAt(mem, address) == Text(mem[address..end])
    decreases end - address
  {
    if address < end {
      StringEnds(mem, address + 1, end);
      assert mem[address..end] == [mem[address]] + mem[address + 1..end];
    }
  }

  lemma {:induction false} StringHasNoEnd(mem: seq<Byte>, address: nat)
    requires address <= |mem| && forall k | address <= k < |mem| :: mem[k] != 0
    ensures StringAt(mem, address) == NoEnd
    decreases |mem| - address
  {
    if address < |mem| {
      StringHasNoEnd(mem, address + 1);
    }
  }

  /** PRINT_STR of a string in memory prints its bytes and a newline. */
  lemma PrintsString(was: Decoded, m: Machine, mem: seq<Byte>, address: U32, end: nat)
    requires m.Ok() && |mem| == MEM_SIZE
    requires address <= end < |mem| && mem[end] == 0 && forall k | address <= k < end :: mem[k] != 0
    ensures Execute(m, mem, Decode(was, Encode(PrintStrAt(address))))
         == (m.(out := m.out + (mem[address..end] + [10])), Code(0))
  {
    hide Execute, Decode, Encode;
    ExecutePrintStr(was, m, mem, PrintStrAt(address));
    StringEnds(mem, address, end);
  }

  // ---- which files load ----

  /** A header of 22 bytes is the serialisation of what it is parsed to. */
  lemma HeaderBytes(b: seq<Byte>)
    requires |b| == 22
    ensures HeaderOf(b).version < 65536 && EncodeHeader(HeaderOf(b)) == b
  {
    hide Le32Bytes, Le32;
    Le32Bytes4(b[0..4]);
    Le32Bytes4(b[6..10]);
    Le32Bytes4(b[10..14]);
    Le32Bytes4(b[14..18]);
    Le32Bytes4(b[18..22]);
    Le16Bytes2(b[4..6]);
    Slices(b);
  }

  lemma Slices(b: seq<Byte>)
    requires |b| == 22
    ensures b == b[0..4] + b[4..6] + b[6..10] + b[10..14] + b[14..18] + b[18..22]
  {
  }

  lemma Le32Bytes4(b: seq<Byte>)
    requires |b| == 4
    ensures Le32Bytes(Le32(b)) == b
  {
    var v := Le32(b);
    var v1, v2 := (b[1] as int) + 256 * (b[2] as int) + 65536 * (b[3] as int), (b[2] as int) + 256 * (b[3] as int);
    ModUnique(v, 256, v1, b[0]);
    ModUnique(v1, 256, v2, b[1]);
    ModUnique(v2, 256, b[3], b[2]);
  }

  lemma Le16Bytes2(b: seq<Byte>)
    requires |b| == 2
    ensures Le16(b) < 65536 && [Le16(b) % 256, Le16(b) / 256] == b
  {
    ModUnique(Le16(b), 256, b[1], b[0]);
  }

  /** A header with anything behind it: accepted, or its code stored and refused, or refused at once. */
  lemma FileLoads(h: Header, code: seq<Byte>)
    requires h.version < 65536
    ensures var data := EncodeHeader(h) + code;
            var fits := h.version == 1 && 0 < h.codeLen <= 0x80000 && h.dataLen <= 0x40000 && h.rodataLen <= 0x40000;
            && (Loads(data) <==> fits && h.codeLen <= |code|)
            && (Truncated(data) <==> fits && h.codeLen > |code|)
            && HeaderOf(data[..22]) == h
            && (Loads(data) ==> CodeOf(data) == code[..h.codeLen])
  {
    hide EncodeHeader, HeaderOf;
    var data := EncodeHeader(h) + code;
    assert data[..22] == EncodeHeader(h) && data[22..] == code;
    HeaderRoundTrip(h);
  }

  /** The code is at the start of memory, and the rest is what it was. */
  lemma CodeInMemory(mem: seq<Byte>, code: seq<Byte>, i: nat)
    requires |code| <= |mem| && i < |mem|
    ensures |WithCode(mem, code)| == |mem| && WithCode(mem, code)[i] == if i < |code| then code[i] else mem[i]
  {
  }

  /** Every file is too short for a header, or a header with something behind it. */
  lemma EveryFile(data: seq<Byte>)
    ensures if |data| < 22 then !Loads(data) && !Truncated(data)
            else var h := HeaderOf(data[..22]); h.version < 65536 && data == EncodeHeader(h) + data[22..]
  {
    hide EncodeHeader, HeaderOf;
    if |data| >= 22 {
      HeaderBytes(data[..22]);
      assert data == data[..22] + data[22..];
    }
  }

  // ---- what ends a run ----

  /** An opcode that does not exist exits the process with 4. */
  lemma UnknownOpcode(m: Machine, mem: seq<Byte>, was: Decoded)
    requires m.Ok() && |mem| == MEM_SIZE && m.state == Running && m.pc <= 5242880
    requires 0x19 < mem[m.pc] < 0xFF
    ensures Run(m, mem, was) == Outcome(m.(pc := m.pc + 8, state := FatalError), Exited(4), 1)
  {
  }

  /** An opcode that exists but has no handler is a call through a null pointer. */
  lemma NoHandler(m: Machine, mem: seq<Byte>, was: Decoded)
    requires m.Ok() && |mem| == MEM_SIZE && m.state == Running && m.pc <= 5242880
    requires 0x04 <= mem[m.pc] <= 0x18 || mem[m.pc] == 0xFF
    ensures Run(m, mem, was) == Outcome(m.(pc := m.pc + 8), Crashed, 1)
  {
    hide Populate, SrcMode, DestMode, Le32;
  }

  /** Beyond the limit a run stops before it fetches anything, and reports success. */
  lemma BeyondTheLimit(m: Machine, mem: seq<Byte>, was: Decoded)
    requires m.Ok() && |mem| == MEM_SIZE && m.state == Running && m.pc > 5242880
    ensures Run(m, mem, was) == Outcome(m.(state := Halted), Returned(0), 0)
  {
  }

  /** What the opcode of the last instruction fetched says about the ending of a run. */
  ghost predicate EndsBy(opcode: Byte, pc: U32, ending: Ending, state: State) {
    && (ending == Exited(4) <==> 0x19 < opcode < 0xFF)
    && (0x04 <= opcode <= 0x18 || opcode == 0xFF ==> ending == Crashed)
    && (opcode == 0x19 ==> ending == Returned(0) && state == Halted)
    && (ending == Returned(0) ==> opcode == 0x19 || (opcode <= 0x03 && pc > 5242880))
    && (ending == Returned(103) ==> opcode in {0x02, 0x03})
    && (ending == Returned(113) ==> opcode in {0x00, 0x01})
    && (ending in {Exited(4), Crashed, Returned(0), Returned(103), Returned(113)})
  }

  /**
   The last instruction of a run decides how it ends: an unknown opcode exits the process, one
   without a handler crashes, HALT returns 0, and the others end it only by their own errors or
   because the program counter is beyond the limit.
   */
  lemma {:induction false} LastInstruction(m: Machine, mem: seq<Byte>, was: Decoded)
    requires m.Ok() && |mem| == MEM_SIZE && m.state == Running && m.pc <= 5242880
    ensures var r := Run(m, mem, was);
            && r.fetches > 0 && 8 <= r.machine.pc <= |mem|
            && EndsBy(mem[r.machine.pc - 8], r.machine.pc, r.ending, r.machine.state)
    decreases Unfetched(m.pc)
  {
    hide Decode, Execute;
    var instruction, fetched := mem[m.pc..m.pc + 8], m.(pc := m.pc + 8);
    var d := Decode(was, instruction);
    assert instruction[0] == mem[m.pc];
    DecodedOpcode(was, instruction);
    ExecuteByOpcode(fetched, mem, d);
    if instruction[0] <= 0x19 || instruction[0] == 0xFF {
      var (m', status) := Execute(fetched, mem, d);
      if status == Code(0) && m'.state == Running {
        if m'.pc <= 5242880 {
          LastInstruction(m', mem, d);
        } else {
          BeyondTheLimit(m', mem, d);
        }
      }
    }
  }

  lemma DecodedOpcode(was: Decoded, instruction: seq<Byte>)
    requires |instruction| == 8
    ensures Decode(was, instruction).opcode == instruction[0]
  {
    hide Populate, SrcMode, DestMode, Le32;
  }

  lemma ExecuteByOpcode(m: Machine, mem: seq<Byte>, d: Decoded)
    requires m.Ok() && |mem| == MEM_SIZE && m.state == Running
    ensures var (m', status) := Execute(m, mem, d);
            && (status.Undefined? || status.code in {0, 103, 113}) && m'.pc == m.pc
            && (0x04 <= d.opcode <= 0x18 || 0x19 < d.opcode ==> status.Undefined?)
            && (d.opcode == 0x19 ==> status == Code(0) && m'.state == Halted)
            && (d.opcode <= 0x03 ==> m'.state == Running)
            && (status == Code(103) ==> d.opcode in {0x02, 0x03})
            && (status == Code(113) ==> d.opcode in {0x00, 0x01})
  {
    hide StringAt, Le32;
  }

  // ---- modes the print instructions refuse ----

  /** PRINT_CHR wants a register, PRINT_STR an address or a register that holds one. */
  lemma IllegalModes(was: Decoded, m: Machine, mem: seq<Byte>, id0: Byte, id1: Byte, imm: U32,
                     destMode: nat, srcMode: nat)
    requires m.Ok() && |mem| == MEM_SIZE && destMode < 8 && srcMode < 8
    ensures destMode != 0 ==>
              Execute(m, mem, Decode(was, EncodeRaw(0x00, id0, id1, imm, destMode, srcMode, 0, 0))) == (m, Code(113))
    ensures destMode != 2 && destMode != 4 ==>
              Execute(m, mem, Decode(was, EncodeRaw(0x01, id0, id1, imm, destMode, srcMode, 0, 0))) == (m, Code(113))
  {
    hide Decode, EncodeRaw, StringAt, And, Shr, Pow2;
    DecodeInvertsEncode(was, 0x00, id0, id1, imm, destMode, srcMode, 0, 0);
    DecodeInvertsEncode(was, 0x01, id0, id1, imm, destMode, srcMode, 0, 0);
  }

  // ---- MOV ----

  /** Four bytes of memory from `a` on, least significant first. */
  function WordAt(mem: seq<Byte>, a: nat): U32
    requires a + 4 <= |mem|
  {
    (mem[a] as int) + 256 * (mem[a + 1] as int) + 65536 * (mem[a + 2] as int) + 16777216 * (mem[a + 3] as int)
  }

  /** What is left in a register, or why nothing is: a move from memory, or of a value. */
  ghost predicate Moved(m: Machine, dest: Byte, value: U32, r: (Machine, Status)) {
    m.Ok() && r == if dest < 8 then (m.(regs := m.regs[dest := value]), Code(0)) else (m, Undefined)
  }

  ghost predicate MovedFrom(m: Machine, mem: seq<Byte>, dest: Byte, a: U32, r: (Machine, Status)) {
    if a > 0x540000 then r == (m, Code(103))
    else if a + 4 <= |mem| then Moved(m, dest, WordAt(mem, a), r)
    else r == (m, Undefined)
  }

  /**
   An encoded MOV of every destination mode and source mode: the destination's register, whatever its mode,
   gets what the source mode says. Modes without a meaning, and the one for labels, change nothing.
   */
  lemma MovMeaning(was: Decoded, m: Machine, mem: seq<Byte>, id0: Byte, id1: Byte, imm: U32,
                   destMode: nat, srcMode: nat)
    requires m.Ok() && |mem| == MEM_SIZE && destMode < 8 && srcMode < 8
    ensures var r := Execute(m, mem, Decode(was, EncodeRaw(0x02, id0, id1, imm, destMode, srcMode, 0, 0)));
            var dest: Byte := if destMode in {0, 4, 6} then id0
                              else if destMode in {1, 2, 7} then imm % 256 else was.op0.word % 256;
            match srcMode
            case 0 => if id1 < 8 then Moved(m, dest, m.regs[id1], r) else r == (m, Undefined)
            case 1 => Moved(m, dest, imm, r)
            case 2 => MovedFrom(m, mem, dest, imm, r)
            case 4 => if id1 < 8 then MovedFrom(m, mem, dest, m.regs[id1], r) else r == (m, Undefined)
            case 6 =>
              if id1 >= 8 then r == (m, Undefined)
              else
                var base, a := m.regs[id1], (m.regs[id1] + (was.op1.word - was.op1.word % 256 + id1)) % 0x1_0000_0000;
                if base >= 0x540000 || a >= 0x540000 then r == (m, Code(103)) else MovedFrom(m, mem, dest, a, r)
            case _ => r == (m, Code(0))
  {
    hide Decode, EncodeRaw, And, Shr, Pow2, StringAt;
    MovFields(was, id0, id1, imm, destMode, srcMode);
  }

  lemma MovFields(was: Decoded, id0: Byte, id1: Byte, imm: U32, destMode: nat, srcMode: nat)
    requires destMode < 8 && srcMode < 8
    ensures var d := Decode(was, EncodeRaw(0x02, id0, id1, imm, destMode, srcMode, 0, 0));
            && d.opcode == 0x02 && d.op1.mode == srcMode
            && d.op0.RegId() == (if destMode in {0, 4, 6} then id0
                                 else if destMode in {1, 2, 7} then imm % 256 else was.op0.word % 256)
            && (srcMode in {0, 4, 6} ==> d.op1.RegId() == id1)
            && (srcMode in {1, 2, 7} ==> d.op1.word == imm)
            && (srcMode == 6 ==> d.op1.word == was.op1.word - was.op1.word % 256 + id1)
  {
    hide SrcMode, DestMode, Le32, Le32Bytes;
    var b := EncodeRaw(0x02, id0, id1, imm, destMode, srcMode, 0, 0);
    assert b[3..7] == Le32Bytes(imm);
    Le32Inverse(imm);
    Modes(destMode, srcMode, 0, 0);
  }

  // ---- assembler and machine ----

  /** The five opcodes that have handlers are those the assembler gives these names. */
  lemma HandledNames()
    ensures OpcodeLookup("print_chr") == OP_PRINT_CHR == 0x00 && OpcodeLookup("print_str") == OP_PRINT_STR == 0x01
    ensures OpcodeLookup("mov") == OP_MOV == 0x02 && OpcodeLookup("load_addr") == OP_LOAD_ADDR == 0x03
    ensures OpcodeLookup("halt") == OP_HALT == 0x19
  {
    hide OpcodeLookup;
    OperandTheorems.OpcodeNumbers();
  }
}
