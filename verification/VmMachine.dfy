/** The virtual machine as the C code has it: a context updated in place. */
module VmMachine {
  import opened Bits
  import opened VmCore

  const CODE_START := 0
  const CODE_SIZE := 0x080000
  const RODATA_SIZE := 0x040000
  const DATA_SIZE := 0x040000
  const HEAP_START := 0x100000
  const STACK_START := 0x4C0000
  const STACK_SIZE := 0x080000
  const SUPPORTED_VERSION := 1
  const HEADER_BYTES := 22

  datatype Header = Header(magic: U32, version: nat, codeLen: U32, entryPoint: U32, rodataLen: U32, dataLen: U32)

  /** An open file. */
  class File {
    const data: seq<Byte>
    var pos: nat

    constructor (data: seq<Byte>)
      ensures this.data == data && pos == 0
    {
      this.data, pos := data, 0;
    }

    ghost predicate Ok() reads this { pos <= |data| }

    /** fread of `n` bytes: as many as there are. */
    method Read(n: nat) returns (b: seq<Byte>)
      requires Ok()
      modifies this
      ensures Ok() && pos == (if old(pos) + n <= |data| then old(pos) + n else |data|) && b == data[old(pos)..pos]
    {
      var end := if pos + n <= |data| then pos + n else |data|;
      b := data[pos..end];
      pos := end;
    }
  }

  /** read_header_u16 */
  method ReadHeaderU16(f: File) returns (status: nat, value: nat)
    requires f.Ok()
    modifies f
    ensures f.Ok() && status == if old(f.pos) + 2 <= |f.data| then EXIT_SUCCESS else ERR_INVALID_BYTECODE
    ensures status == EXIT_SUCCESS ==> f.pos == old(f.pos) + 2 && value == Le16(f.data[old(f.pos)..f.pos])
  {
    value := 0;
    var b := f.Read(2);
    if |b| != 2 {
      return ERR_INVALID_BYTECODE, value;
    }
    Or2(b[0], b[1]);
    value := Or(b[0], Shl(b[1], 8));
    status := EXIT_SUCCESS;
  }

  /** read_header_u32 */
  method ReadHeaderU32(f: File) returns (status: nat, value: U32)
    requires f.Ok()
    modifies f
    ensures f.Ok() && status == if old(f.pos) + 4 <= |f.data| then EXIT_SUCCESS else ERR_INVALID_BYTECODE
    ensures status == EXIT_SUCCESS ==> f.pos == old(f.pos) + 4 && value == Le32(f.data[old(f.pos)..f.pos])
  {
    value := 0;
    var b := f.Read(4);
    if |b| != 4 {
      return ERR_INVALID_BYTECODE, value;
    }
    Or4(b);
    value := Or(Or(Or(b[0], Shl(b[1], 8)), Shl(b[2], 16)), Shl(b[3], 24));
    status := EXIT_SUCCESS;
  }

  function Le16(b: seq<Byte>): nat
    requires |b| == 2
  {
    (b[0] as int) + 256 * (b[1] as int)
  }

  lemma Pow2Byte(k: nat)
    ensures Pow2(k + 8) == 256 * Pow2(k)
  {
    assert Pow2(k + 8) == 2 * Pow2(k + 7) && Pow2(k + 7) == 2 * Pow2(k + 6) && Pow2(k + 6) == 2 * Pow2(k + 5);
    assert Pow2(k + 5) == 2 * Pow2(k + 4) && Pow2(k + 4) == 2 * Pow2(k + 3) && Pow2(k + 3) == 2 * Pow2(k + 2);
    assert Pow2(k + 2) == 2 * Pow2(k + 1) && Pow2(k + 1) == 2 * Pow2(k);
  }

  lemma Pow2s()
    ensures Pow2(8) == 256 && Pow2(16) == 65536 && Pow2(24) == 16777216
  {
    hide Pow2;
    NoPow2();
    Pow2Byte(0);
    Pow2Byte(8);
    Pow2Byte(16);
  }

  lemma NoPow2()
    ensures Pow2(0) == 1
  {
  }

  lemma Or2(a: Byte, b: Byte)
    ensures Or(a, Shl(b, 8)) == (a as int) + 256 * (b as int)
  {
    Pow2s();
    OrDisjoint(a, b, 8);
  }

  lemma Or4(b: seq<Byte>)
    requires |b| == 4
    ensures Or(Or(Or(b[0], Shl(b[1], 8)), Shl(b[2], 16)), Shl(b[3], 24)) == Le32(b)
  {
    Pow2s();
    Or2(b[0], b[1]);
    OrDisjoint(Or(b[0], Shl(b[1], 8)), b[2], 16);
    OrDisjoint(Or(Or(b[0], Shl(b[1], 8)), Shl(b[2], 16)), b[3], 24);
  }

  function HeaderOf(b: seq<Byte>): Header
    requires |b| == HEADER_BYTES
  {
    Header(Le32(b[0..4]), Le16(b[4..6]), Le32(b[6..10]), Le32(b[10..14]), Le32(b[14..18]), Le32(b[18..22]))
  }

  /** parse_header */
  method ParseHeader(f: File) returns (status: nat, h: Header)
    requires f.Ok()
    modifies f
    ensures f.Ok() && status == if old(f.pos) + HEADER_BYTES <= |f.data| then EXIT_SUCCESS else ERR_INVALID_BYTECODE
    ensures status == EXIT_SUCCESS ==>
              f.pos == old(f.pos) + HEADER_BYTES && h == HeaderOf(f.data[old(f.pos)..f.pos])
  {
    h := Header(0, 0, 0, 0, 0, 0);
    var magic, version, codeLen, entryPoint, rodataLen, dataLen;
    status, magic := ReadHeaderU32(f);
    if status == ERR_INVALID_BYTECODE { return; }
    status, version := ReadHeaderU16(f);
    if status == ERR_INVALID_BYTECODE { return; }
    status, codeLen := ReadHeaderU32(f);
    if status == ERR_INVALID_BYTECODE { return; }
    status, entryPoint := ReadHeaderU32(f);
    if status == ERR_INVALID_BYTECODE { return; }
    status, rodataLen := ReadHeaderU32(f);
    if status == ERR_INVALID_BYTECODE { return; }
    status, dataLen := ReadHeaderU32(f);
    if status == ERR_INVALID_BYTECODE { return; }
    Slice(f.data, old(f.pos), 0, 4);
    Slice(f.data, old(f.pos), 4, 6);
    Slice(f.data, old(f.pos), 6, 10);
    Slice(f.data, old(f.pos), 10, 14);
    Slice(f.data, old(f.pos), 14, 18);
    Slice(f.data, old(f.pos), 18, 22);
    h := Header(magic, version, codeLen, entryPoint, rodataLen, dataLen);
  }

  lemma Slice(data: seq<Byte>, p: nat, i: nat, j: nat)
    requires p + HEADER_BYTES <= |data| && i <= j <= HEADER_BYTES
    ensures data[p..p + HEADER_BYTES][i..j] == data[p + i..p + j]
  {
    var s := data[p..p + HEADER_BYTES];
    assert forall k | 0 <= k < j - i :: s[i..j][k] == data[p + i + k];
  }

  // ---- loading, as a function of the file ----

  /** The checks of load_bytecode on a header. */
  predicate Acceptable(h: Header) {
    && 0 < h.codeLen <= CODE_SIZE
    && h.version == SUPPORTED_VERSION
    && h.dataLen <= DATA_SIZE && h.rodataLen <= RODATA_SIZE
  }

  /** load_bytecode accepts a file. */
  predicate Loads(data: seq<Byte>) {
    && |data| >= HEADER_BYTES
    && Acceptable(HeaderOf(data[..HEADER_BYTES]))
    && |data| >= HEADER_BYTES + HeaderOf(data[..HEADER_BYTES]).codeLen
  }

  /** The header is acceptable but less code follows than it says. */
  predicate Truncated(data: seq<Byte>) {
    && |data| >= HEADER_BYTES
    && Acceptable(HeaderOf(data[..HEADER_BYTES]))
    && |data| < HEADER_BYTES + HeaderOf(data[..HEADER_BYTES]).codeLen
  }

  function CodeOf(data: seq<Byte>): seq<Byte>
    requires Loads(data)
  {
    data[HEADER_BYTES..HEADER_BYTES + HeaderOf(data[..HEADER_BYTES]).codeLen]
  }

  /** Memory after the code segment has been read into its start. */
  function WithCode(mem: seq<Byte>, code: seq<Byte>): seq<Byte>
    requires |code| <= |mem|
  {
    code + mem[|code|..]
  }

  class VmContext {
    var state: State
    var registers: array<U32>
    var memory: array<Byte>
    var pc: U32
    var sp: U32
    var bp: U32
    var hp: U32
    /** What has been printed. */
    var out: seq<Byte>

    /** vm_create; what malloc leaves in memory is arbitrary. */
    constructor (mem: array<Byte>)
      requires mem.Length == MEM_SIZE
      ensures Ok() && memory == mem && fresh(registers)
      ensures state == Halted && registers[..] == [0, 0, 0, 0, 0, 0, 0, 0] && out == []
    {
      state, memory, out := Halted, mem, [];
      registers := new U32[8](_ => 0);
      pc, sp, bp, hp := 0, 0, 0, 0;
      new;
      assert registers[..] == [0, 0, 0, 0, 0, 0, 0, 0];
    }

    ghost predicate Ok()
      reads this
    {
      registers.Length == 8 && memory.Length == MEM_SIZE && registers as object != memory as object
    }

    function Abs(): (m: Machine)
      reads this, registers
    {
      Machine(state, registers[..], pc, out)
    }

    /** Assign a register, if the id names one. */
    method SetRegister(id: Byte, value: U32) returns (status: Status)
      requires Ok()
      modifies registers
      ensures (Abs(), status) == SetReg(old(Abs()), id, value)
    {
      if id < 8 {
        registers[id] := value;
        status := Code(EXIT_SUCCESS);
      } else {
        status := Undefined;
      }
    }

    /** memcpy of four bytes of memory into a register */
    method LoadRegister(id: Byte, address: nat) returns (status: Status)
      requires Ok()
      modifies registers
      ensures (Abs(), status) == Load(old(Abs()), memory[..], id, address)
    {
      if address + 4 <= memory.Length {
        status := SetRegister(id, Le32(memory[address..address + 4]));
      } else {
        status := Undefined;
      }
    }

    method HandleMov(d: Decoded) returns (status: Status)
      requires Ok()
      modifies registers
      ensures (Abs(), status) == VmCore.HandleMov(old(Abs()), memory[..], d)
    {
      var dest, src, value := d.op0.RegId(), d.op1.RegId(), d.op1.word;
      if d.op1.mode == AM_REG_DIRECT {
        if src >= 8 { return Undefined; }
        status := SetRegister(dest, registers[src]);
      } else if d.op1.mode == AM_IMM_INT {
        status := SetRegister(dest, value);
      } else if d.op1.mode == AM_IMM_ADDR {
        if value > MEM_SIZE { return Code(ERR_MEMORY_OUT_OF_BOUNDS); }
        status := LoadRegister(dest, value);
      } else if d.op1.mode == AM_REG_INDIRECT {
        if src >= 8 { return Undefined; }
        var address := registers[src];
        if address > MEM_SIZE { return Code(ERR_MEMORY_OUT_OF_BOUNDS); }
        status := LoadRegister(dest, address);
      } else if d.op1.mode == AM_BASE_OFFSET {
        if src >= 8 { return Undefined; }
        var base := registers[src];
        var address := (base + value) % TWO_TO_THE_32;
        if base >= MEM_SIZE || address >= MEM_SIZE { return Code(ERR_MEMORY_OUT_OF_BOUNDS); }
        status := LoadRegister(dest, address);
      } else {
        status := Code(EXIT_SUCCESS);
      }
    }

    method HandleLoadAddr(d: Decoded) returns (status: Status)
      requires Ok()
      modifies registers
      ensures (Abs(), status) == VmCore.HandleLoadAddr(old(Abs()), d)
    {
      var dest, src, value := d.op0.RegId(), d.op1.RegId(), d.op1.word;
      if d.op0.mode == AM_IMM_ADDR {
        if value >= MEM_SIZE { return Code(ERR_MEMORY_OUT_OF_BOUNDS); }
        status := SetRegister(dest, value);
      } else if d.op0.mode == AM_REG_INDIRECT {
        if dest >= 8 { return Undefined; }
        var address := registers[dest];
        if address >= MEM_SIZE { return Code(ERR_MEMORY_OUT_OF_BOUNDS); }
        status := SetRegister(dest, address);
      } else if d.op0.mode == AM_BASE_OFFSET {
        if src >= 8 { return Undefined; }
        var base := registers[src];
        var address := (base + value) % TWO_TO_THE_32;
        if base >= MEM_SIZE || address >= MEM_SIZE { return Code(ERR_MEMORY_OUT_OF_BOUNDS); }
        status := SetRegister(src, address);
      } else if d.op0.mode == AM_PC_RELATIVE {
        status := SetRegister(dest, (pc + value) % TWO_TO_THE_32);
      } else {
        status := Code(EXIT_SUCCESS);
      }
    }

    method HandlePrintChr(d: Decoded) returns (status: Status)
      modifies `out
      requires Ok()
      ensures (Abs(), status) == VmCore.HandlePrintChr(old(Abs()), d)
    {
      if d.op0.mode != AM_REG_DIRECT { return Code(ERR_ILLEGAL_OPERATION); }
      if d.op0.RegId() >= 8 { return Undefined; }
      LowByte(registers[d.op0.RegId()]);
      out := out + [And(registers[d.op0.RegId()], LSB_MASK)];
      status := Code(EXIT_SUCCESS);
    }

    /** vm_print_string */
    method PrintString(address: nat) returns (status: Status)
      requires Ok() && address < MEM_SIZE
      modifies `out
      ensures (Abs(), status) == VmCore.PrintString(old(Abs()), memory[..], address)
    {
      var i := address;
      while i < memory.Length && memory[i] != 0
        invariant address <= i <= memory.Length && memory.Length == MEM_SIZE
        invariant out == old(out) + memory[address..i]
        invariant var t, rest := StringAt(memory[..], address), StringAt(memory[..], i);
                  t.NoEnd? == rest.NoEnd? && (t.Text? ==> old(out) + t.bytes == out + rest.bytes)
      {
        out := out + [memory[i]];
        i := i + 1;
      }
      if i == memory.Length {
        assert memory[..][address..] == memory[address..i];
        return Undefined;
      }
      assert StringAt(memory[..], i) == Text([]) && out + [] == out;
      out := out + [NEWLINE];
      status := Code(EXIT_SUCCESS);
    }

    method HandlePrintStr(d: Decoded) returns (status: Status)
      requires Ok()
      modifies `out
      ensures (Abs(), status) == VmCore.HandlePrintStr(old(Abs()), memory[..], d)
    {
      status := Code(EXIT_SUCCESS);
      if d.op0.mode == AM_REG_INDIRECT {
        if d.op0.RegId() >= 8 { return Undefined; }
        if registers[d.op0.RegId()] < MEM_SIZE {
          status := PrintString(registers[d.op0.RegId()]);
        }
      } else if d.op0.mode == AM_IMM_ADDR {
        if d.op0.word < MEM_SIZE {
          status := PrintString(d.op0.word);
        }
      } else {
        status := Code(ERR_ILLEGAL_OPERATION);
      }
    }

    method HandleHalt(d: Decoded) returns (status: Status)
      modifies `state
      ensures (Abs(), status) == VmCore.HandleHalt(old(Abs()), d)
    {
      if d.opcode == OP_HALT && state != Halted {
        state := Halted;
        return Code(EXIT_SUCCESS);
      }
      status := Code(EXIT_SUCCESS);
    }

    /** execute_bytecode: dispatch through opcode_handler. */
    method Execute(d: Decoded) returns (status: Status)
      requires Ok()
      modifies registers, `out, `state
      ensures (Abs(), status) == VmCore.Execute(old(Abs()), memory[..], d)
    {
      if d.opcode == OP_PRINT_CHR {
        status := HandlePrintChr(d);
      } else if d.opcode == OP_PRINT_STR {
        status := HandlePrintStr(d);
      } else if d.opcode == OP_MOV {
        status := HandleMov(d);
      } else if d.opcode == OP_LOAD_ADDR {
        status := HandleLoadAddr(d);
      } else if d.opcode == OP_HALT {
        status := HandleHalt(d);
      } else {
        status := Undefined;
      }
    }

    /** fetch_instruction */
    method Fetch() returns (status: nat, instruction: seq<Byte>)
      requires Ok()
      modifies `pc
      ensures |instruction| == INSTRUCTION_SIZE
      ensures if old(pc) > MEMORY_LIMIT then status == ERR_PC_OUT_OF_BOUNDS && pc == old(pc)
              else status == EXIT_SUCCESS && pc == old(pc) + INSTRUCTION_SIZE
                   && instruction == memory[..][old(pc)..old(pc) + INSTRUCTION_SIZE]
    {
      if pc > MEMORY_LIMIT {
        return ERR_PC_OUT_OF_BOUNDS, [0, 0, 0, 0, 0, 0, 0, 0];
      }
      instruction := memory[pc..pc + INSTRUCTION_SIZE];
      pc := pc + INSTRUCTION_SIZE;
      status := EXIT_SUCCESS;
    }

    /** The fread of load_bytecode, into the start of memory. */
    method StoreCode(code: seq<Byte>)
      requires |code| <= memory.Length
      modifies memory
      ensures memory[..] == WithCode(old(memory[..]), code)
    {
      forall i | 0 <= i < |code| {
        memory[CODE_START + i] := code[i];
      }
    }

    /** load_bytecode of an opened file */
    method LoadBytecode(f: File) returns (status: nat)
      requires Ok() && f.Ok() && f.pos == 0
      modifies f, memory, `pc, `sp, `bp, `hp
      ensures status == if Loads(f.data) then EXIT_SUCCESS else ERR_INVALID_BYTECODE
      ensures Loads(f.data) ==>
                memory[..] == WithCode(old(memory[..]), CodeOf(f.data))
                && pc == HeaderOf(f.data[..HEADER_BYTES]).entryPoint
                && sp == bp == 0x540000 && hp == 0x100000
      ensures !Loads(f.data) ==>
                pc == old(pc) && sp == old(sp) && bp == old(bp) && hp == old(hp)
                && memory[..] == if Truncated(f.data) then WithCode(old(memory[..]), f.data[HEADER_BYTES..])
                                 else old(memory[..])
    {
      hide HeaderOf, WithCode;
      var header;
      status, header := ParseHeader(f);
      if status != EXIT_SUCCESS { return; }
      assert f.data[0..HEADER_BYTES] == f.data[..HEADER_BYTES];
      if header.codeLen > CODE_SIZE { return ERR_INVALID_BYTECODE; }
      if header.codeLen == 0 { return ERR_INVALID_BYTECODE; }
      if header.version != SUPPORTED_VERSION { return ERR_INVALID_BYTECODE; }
      if header.dataLen > DATA_SIZE { return ERR_INVALID_BYTECODE; }
      if header.rodataLen > RODATA_SIZE { return ERR_INVALID_BYTECODE; }
      var code := f.Read(header.codeLen);
      StoreCode(code);
      if |code| != header.codeLen {
        assert code == f.data[HEADER_BYTES..];
        return ERR_INVALID_BYTECODE;
      }
      assert code == CodeOf(f.data);
      pc := CODE_START + header.entryPoint;
      sp := STACK_START + STACK_SIZE;
      bp := STACK_START + STACK_SIZE;
      hp := HEAP_START;
    }

    /** The loop of run_vm; `was` is what the uninitialised instruction structure held. */
    method Loop(was: Decoded, ghost to: Outcome) returns (ending: Ending)
      requires Ok() && state == Running && to == Run(Abs(), memory[..], was)
      modifies registers, `out, `state, `pc
      ensures ending == to.ending && Abs() == to.machine
    {
      hide Decode, VmCore.Execute, Named;
      var d := was;
      ghost var k := 0;
      while state == Running
        invariant Ok()
        invariant state == Running ==>
                    var r := Run(Abs(), memory[..], d); to == r.(fetches := k + r.fetches)
        invariant state != Running ==> to.machine == Abs() && to.ending == Returned(EXIT_SUCCESS)
        decreases state == Running, Unfetched(pc)
      {
        ghost var m := Abs();
        var fetchStatus, instruction := Fetch();
        if fetchStatus == ERR_PC_OUT_OF_BOUNDS {
          state := Halted;
          break;
        }
        if !Named(instruction[0]) {
          state := FatalError;
          return Exited(ERR_OPCODE_NOT_FOUND);
        }
        d := Decode(d, instruction);
        var status := Execute(d);
        if status.Undefined? {
          return Crashed;
        }
        if status.code >= ERR_STACK_OVERFLOW {
          state := SoftError;
          return Returned(status.code);
        }
        k := k + 1;
      }
      ending := Returned(EXIT_SUCCESS);
    }

    /** run_vm on an opened file */
    method RunVm(f: File, was: Decoded) returns (ending: Ending)
      requires Ok() && f.Ok() && f.pos == 0
      modifies this, f, memory, registers
      ensures !Loads(f.data) ==> ending == Exited(3) && state == FatalError
      ensures Loads(f.data) ==>
                var mem := WithCode(old(memory[..]), CodeOf(f.data));
                var start := old(Abs()).(state := Running, pc := HeaderOf(f.data[..HEADER_BYTES]).entryPoint);
                var to := Run(start, mem, was);
                && memory == old(memory) && memory[..] == mem
                && ending == to.ending && Abs() == to.machine
                && sp == bp == 0x540000 && hp == 0x100000
    {
      state := Running;
      var status := LoadBytecode(f);
      if status != EXIT_SUCCESS {
        state := FatalError;
        return Exited(status);
      }
      ending := Loop(was, Run(Abs(), memory[..], was));
    }
  }

  lemma LowByte(r: U32)
    ensures And(r, LSB_MASK) == r % 256
  {
    Pow2s();
    AndMask(r, 8);
  }
}
