/** The virtual machine as functions on values: decoder, handlers and the fetch/decode/execute loop. */
module VmCore {
  import opened Bits

  const MEM_SIZE := 0x540000
  const MEMORY_LIMIT := 5242880
  const INSTRUCTION_SIZE := 8
  const LSB_MASK := 0xFF

  const OP_PRINT_CHR := 0x00
  const OP_PRINT_STR := 0x01
  const OP_MOV := 0x02
  const OP_LOAD_ADDR := 0x03
  const OP_HALT := 0x19

  const AM_REG_DIRECT := 0
  const AM_IMM_INT := 1
  const AM_IMM_ADDR := 2
  const AM_REG_INDIRECT := 4
  const AM_BASE_OFFSET := 6
  const AM_PC_RELATIVE := 7
  const AM_NONE := 14

  const EXIT_SUCCESS := 0
  const ERR_INVALID_BYTECODE := 3
  const ERR_OPCODE_NOT_FOUND := 4
  const ERR_PC_OUT_OF_BOUNDS := 6
  const ERR_STACK_OVERFLOW := 100
  const ERR_MEMORY_OUT_OF_BOUNDS := 103
  const ERR_ILLEGAL_OPERATION := 113

  datatype State = Running | Halted | FatalError | SoftError

  /**
   A VMOperand. The union's first four bytes are `word`, whose low byte is also
   `reg_id`; its last four bytes are `base_and_offset.offset`.
   */
  datatype Operand = Operand(mode: nat, word: U32, offset: U32) {
    function RegId(): Byte { word % 256 }
  }

  datatype Decoded = Decoded(opcode: Byte, metadataFlags: Byte, op0: Operand, op1: Operand)

  /** Four bytes in little-endian order. */
  function Le32(b: seq<Byte>): U32
    requires |b| == 4
  {
    (b[0] as int) + 256 * (b[1] as int) + 65536 * (b[2] as int) + 16777216 * (b[3] as int)
  }

  // ---- decoding ----

  /** opcode_info: the named opcodes and their operand counts. */
  predicate Named(opcode: Byte) {
    opcode <= 0x19 || opcode == 0xFF
  }

  function OperandCount(opcode: Byte): nat {
    if opcode == 0xFF then 0
    else if 0x02 <= opcode <= 0x0A then 2
    else if opcode <= 0x0B || 0x0D <= opcode <= 0x15 || opcode == 0x17 || opcode == 0x18 then 1
    else 0
  }

  /** GET_SRC_MODE and GET_DEST_MODE */
  function SrcMode(metadata: Byte): nat { And(Shr(metadata, 1), 7) }
  function DestMode(metadata: Byte): nat { And(Shr(metadata, 4), 7) }

  /** populate_operand: what is not written keeps its value. */
  function Populate(was: Operand, mode: nat, rawId: Byte, imm: U32): Operand {
    if mode == AM_REG_DIRECT || mode == AM_REG_INDIRECT then
      Operand(mode, was.word - was.word % 256 + rawId, was.offset)
    else if mode == AM_BASE_OFFSET then
      Operand(mode, was.word - was.word % 256 + rawId, imm)
    else if mode == AM_IMM_INT || mode == AM_IMM_ADDR || mode == AM_PC_RELATIVE then
      Operand(mode, imm, was.offset)
    else
      was.(mode := mode)
  }

  /** decode_instruction, into a structure that held `was`. */
  function Decode(was: Decoded, instruction: seq<Byte>): Decoded
    requires |instruction| == INSTRUCTION_SIZE
  {
    var opcode, metadata := instruction[0], instruction[7];
    var imm := Le32(instruction[3..7]);
    if !Named(opcode) then was.(opcode := opcode, metadataFlags := metadata)
    else
      Decoded(opcode, metadata,
              if OperandCount(opcode) >= 1 then Populate(was.op0, DestMode(metadata), instruction[1], imm)
              else was.op0.(mode := AM_NONE),
              if OperandCount(opcode) == 2 then Populate(was.op1, SrcMode(metadata), instruction[2], imm)
              else was.op1.(mode := AM_NONE))
  }

  // ---- handlers ----

  /** The mutable part of a VMContext, and what has been printed. */
  datatype Machine = Machine(state: State, regs: seq<U32>, pc: U32, out: seq<Byte>) {
    predicate Ok() { |regs| == 8 }
  }

  /** A status code, or behaviour that C leaves undefined (an access outside an array, a call through null). */
  datatype Status = Code(code: nat) | Undefined

  function ReadU32(mem: seq<Byte>, address: nat): U32
    requires address + 4 <= |mem|
  {
    Le32(mem[address..address + 4])
  }

  /** Store a register, if the id names one. */
  function SetReg(m: Machine, id: Byte, value: U32): (Machine, Status)
    requires m.Ok()
  {
    if id < 8 then (m.(regs := m.regs[id := value]), Code(EXIT_SUCCESS)) else (m, Undefined)
  }

  /** Load four bytes into a register. The bound check of the source admits addresses up to MEM_SIZE. */
  function Load(m: Machine, mem: seq<Byte>, id: Byte, address: nat): (Machine, Status)
    requires m.Ok() && |mem| == MEM_SIZE
  {
    if address + 4 <= MEM_SIZE then SetReg(m, id, ReadU32(mem, address)) else (m, Undefined)
  }

  /** handle_mov; the mode of the first operand is not looked at. */
  function HandleMov(m: Machine, mem: seq<Byte>, d: Decoded): (Machine, Status)
    requires m.Ok() && |mem| == MEM_SIZE
  {
    var dest, src, value := d.op0.RegId(), d.op1.RegId(), d.op1.word;
    if d.op1.mode == AM_REG_DIRECT then
      if src < 8 then SetReg(m, dest, m.regs[src]) else (m, Undefined)
    else if d.op1.mode == AM_IMM_INT then
      SetReg(m, dest, value)
    else if d.op1.mode == AM_IMM_ADDR then
      if value > MEM_SIZE then (m, Code(ERR_MEMORY_OUT_OF_BOUNDS)) else Load(m, mem, dest, value)
    else if d.op1.mode == AM_REG_INDIRECT then
      if src >= 8 then (m, Undefined)
      else if m.regs[src] > MEM_SIZE then (m, Code(ERR_MEMORY_OUT_OF_BOUNDS))
      else Load(m, mem, dest, m.regs[src])
    else if d.op1.mode == AM_BASE_OFFSET then
      if src >= 8 then (m, Undefined)
      else
        var address := (m.regs[src] + value) % TWO_TO_THE_32;
        if m.regs[src] >= MEM_SIZE || address >= MEM_SIZE then (m, Code(ERR_MEMORY_OUT_OF_BOUNDS))
        else Load(m, mem, dest, address)
    else (m, Code(EXIT_SUCCESS))
  }

  /** handle_load_addr, which switches on the mode of its first operand. */
  function HandleLoadAddr(m: Machine, d: Decoded): (Machine, Status)
    requires m.Ok()
  {
    var dest, src, value := d.op0.RegId(), d.op1.RegId(), d.op1.word;
    if d.op0.mode == AM_IMM_ADDR then
      if value >= MEM_SIZE then (m, Code(ERR_MEMORY_OUT_OF_BOUNDS)) else SetReg(m, dest, value)
    else if d.op0.mode == AM_REG_INDIRECT then
      if dest >= 8 then (m, Undefined)
      else if m.regs[dest] >= MEM_SIZE then (m, Code(ERR_MEMORY_OUT_OF_BOUNDS))
      else SetReg(m, dest, m.regs[dest])
    else if d.op0.mode == AM_BASE_OFFSET then
      if src >= 8 then (m, Undefined)
      else
        var address := (m.regs[src] + value) % TWO_TO_THE_32;
        if m.regs[src] >= MEM_SIZE || address >= MEM_SIZE then (m, Code(ERR_MEMORY_OUT_OF_BOUNDS))
        else SetReg(m, src, address)
    else if d.op0.mode == AM_PC_RELATIVE then
      SetReg(m, dest, (m.pc + value) % TWO_TO_THE_32)
    else (m, Code(EXIT_SUCCESS))
  }

  /** handle_print_chr */
  function HandlePrintChr(m: Machine, d: Decoded): (Machine, Status)
    requires m.Ok()
  {
    if d.op0.mode != AM_REG_DIRECT then (m, Code(ERR_ILLEGAL_OPERATION))
    else if d.op0.RegId() >= 8 then (m, Undefined)
    else (m.(out := m.out + [m.regs[d.op0.RegId()] % 256]), Code(EXIT_SUCCESS))
  }

  datatype Text = NoEnd | Text(bytes: seq<Byte>)

  /** The bytes from `address` up to the first zero byte, if memory has one. */
  function StringAt(mem: seq<Byte>, address: nat): Text
    requires address <= |mem|
    decreases |mem| - address
  {
    if address == |mem| then NoEnd
    else if mem[address] == 0 then Text([])
    else
      var rest := StringAt(mem, address + 1);
      if rest.NoEnd? then NoEnd else Text([mem[address]] + rest.bytes)
  }

  const NEWLINE: Byte := 10

  /**
   vm_print_string: the string and a newline. Where no zero byte follows, everything up
   to the end of memory is printed, and then memory is read beyond its end.
   */
  function PrintString(m: Machine, mem: seq<Byte>, address: nat): (Machine, Status)
    requires m.Ok() && |mem| == MEM_SIZE && address < MEM_SIZE
  {
    match StringAt(mem, address)
    case NoEnd => (m.(out := m.out + mem[address..]), Undefined)
    case Text(bytes) => (m.(out := m.out + bytes + [NEWLINE]), Code(EXIT_SUCCESS))
  }

  /** handle_print_str; an address outside memory prints nothing. */
  function HandlePrintStr(m: Machine, mem: seq<Byte>, d: Decoded): (Machine, Status)
    requires m.Ok() && |mem| == MEM_SIZE
  {
    if d.op0.mode == AM_REG_INDIRECT then
      if d.op0.RegId() >= 8 then (m, Undefined)
      else if m.regs[d.op0.RegId()] < MEM_SIZE then PrintString(m, mem, m.regs[d.op0.RegId()])
      else (m, Code(EXIT_SUCCESS))
    else if d.op0.mode == AM_IMM_ADDR then
      if d.op0.word < MEM_SIZE then PrintString(m, mem, d.op0.word) else (m, Code(EXIT_SUCCESS))
    else (m, Code(ERR_ILLEGAL_OPERATION))
  }

  /** handle_halt */
  function HandleHalt(m: Machine, d: Decoded): (Machine, Status) {
    (if d.opcode == OP_HALT then m.(state := Halted) else m, Code(EXIT_SUCCESS))
  }

  /** execute_bytecode: an opcode without a handler calls through a null pointer. */
  function Execute(m: Machine, mem: seq<Byte>, d: Decoded): (r: (Machine, Status))
    requires m.Ok() && |mem| == MEM_SIZE
    ensures r.0.Ok() && r.0.pc == m.pc
    ensures r.1.Code? ==> r.1.code in {EXIT_SUCCESS, ERR_MEMORY_OUT_OF_BOUNDS, ERR_ILLEGAL_OPERATION}
    ensures r.0.state == m.state || (r.0.state == Halted && r.1 == Code(EXIT_SUCCESS))
  {
    if d.opcode == OP_PRINT_CHR then HandlePrintChr(m, d)
    else if d.opcode == OP_PRINT_STR then HandlePrintStr(m, mem, d)
    else if d.opcode == OP_MOV then HandleMov(m, mem, d)
    else if d.opcode == OP_LOAD_ADDR then HandleLoadAddr(m, d)
    else if d.opcode == OP_HALT then HandleHalt(m, d)
    else (m, Undefined)
  }

  // ---- the loop ----

  /** How the loop of run_vm ends: it returns, exits the process, or its behaviour is undefined. */
  datatype Ending = Returned(code: nat) | Exited(code: nat) | Crashed

  datatype Outcome = Outcome(machine: Machine, ending: Ending, fetches: nat)

  function Unfetched(pc: U32): nat {
    if pc > MEMORY_LIMIT then 0 else MEMORY_LIMIT + INSTRUCTION_SIZE - pc
  }

  /** The loop of run_vm from a running machine. */
  function Run(m: Machine, mem: seq<Byte>, was: Decoded): Outcome
    requires m.Ok() && |mem| == MEM_SIZE && m.state == Running
    decreases Unfetched(m.pc)
  {
    if m.pc > MEMORY_LIMIT then Outcome(m.(state := Halted), Returned(EXIT_SUCCESS), 0)
    else
      var instruction := mem[m.pc..m.pc + INSTRUCTION_SIZE];
      var fetched := m.(pc := m.pc + INSTRUCTION_SIZE);
      var d := Decode(was, instruction);
      if !Named(instruction[0]) then Outcome(fetched.(state := FatalError), Exited(ERR_OPCODE_NOT_FOUND), 1)
      else
        var (m', status) := Execute(fetched, mem, d);
        if status.Undefined? then Outcome(m', Crashed, 1)
        else if status.code != EXIT_SUCCESS then Outcome(m'.(state := SoftError), Returned(status.code), 1)
        else if m'.state != Running then Outcome(m', Returned(EXIT_SUCCESS), 1)
        else
          var rest := Run(m', mem, d);
          rest.(fetches := rest.fetches + 1)
  }
}
