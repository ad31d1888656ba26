/** Tokens to lines: the recursive-descent parser over the token stream. */
module Parser {
  import opened Arena
  import opened Bits
  import opened Tokens
  import opened TokenStreams
  import VmCore

  const INT32_MIN := -0x8000_0000
  const UINT32_MAX := 0xFFFF_FFFF
  const SIZEOF_LINE := 72

  datatype Operand = Reg(id: nat) | Symbol(name: string) | Int(v: U32) | Chr(c: nat) | Str(text: string)

  /** As many operands as the opcode has; the slots behind them are OT_NONE or never written. */
  datatype Instruction = Instruction(opcode: nat, operands: seq<Operand>)

  /** A line of the program; `Blank` is one as arena_calloc left it. */
  datatype Line = Blank | Label(name: string) | Instr(instruction: Instruction) | Direct(directive: nat)

  /**
   How a parse function ends where the arena suffices, the tokens it leaves, and what
   it takes from the arena until then. With less than that in the arena it exits.
   */
  datatype Parsed<T> = Parsed(result: Outcome<T>, rest: seq<Token>, size: nat)

  // ---- what the parser makes of a list of tokens ----

  function SkipSeparator(ts: seq<Token>): (r: seq<Token>)
    ensures |r| <= |ts|
  {
    if First(ts).kind == Separator then Rest(ts) else ts
  }

  /** parse_integer, which keeps the low 32 bits */
  function IntegerOf(val: int): Outcome<U32> {
    if val < INT32_MIN || val > UINT32_MAX then Failed else Ok(val % TWO_TO_THE_32)
  }

  /** parse_operand: what is neither register nor identifier is decided by the union's literal.type. */
  function OperandFrom(tokens: seq<Token>): (r: Parsed<Operand>)
    ensures |r.rest| <= |tokens|
  {
    if tokens == [] then Parsed(Failed, [], 0)
    else
      var ts := SkipSeparator(tokens);
      var t := First(ts);
      if t.kind == Register then
        Parsed(if ts == [] || t.tag % 256 == NOT_FOUND then Failed else Ok(Reg(t.tag % 256)), Rest(ts), 0)
      else if t.kind == Identifier then Parsed(Ok(Symbol(t.text)), Rest(ts), 0)
      else if t.tag == LIT_INTEGER then
        var v := IntegerOf(t.val);
        if v.Ok? then Parsed(Ok(Int(v.value)), Rest(ts), 0) else Parsed(Failed, ts, 0)
      else if t.tag == LIT_CHAR then
        Parsed(if t.val % 256 == 0 then Failed else Ok(Chr(t.val % 256)), ts, 0)
      else if t.tag == LIT_STRING then
        if t.val == 0 then Parsed(Crash, ts, 0) else Parsed(Ok(Str(t.text)), Rest(ts), CopySize(t.text))
      else Parsed(Failed, ts, 0)
  }

  /** parse_instruction, which copies the name of the opcode first */
  function InstructionFrom(ts: seq<Token>): (r: Parsed<Instruction>)
    ensures |r.rest| <= |ts|
    ensures r.result.Ok? ==> |r.rest| < |ts|
  {
    if First(ts).kind != Identifier then Parsed(Failed, ts, 0)
    else
      var name := First(ts).text;
      if !IsOpcode(name) then Parsed(Failed, ts, CopySize(name))
      else
        var p := OperandsFrom(SkipSeparator(Rest(ts)), VmCore.OperandCount(OpcodeLookup(name)));
        var size := CopySize(name) + p.size;
        match p.result
        case Ok(operands) => Parsed(Ok(Instruction(OpcodeLookup(name), operands)), p.rest, size)
        case Failed => Parsed(Failed, p.rest, size)
        case ExitOne => Parsed(ExitOne, p.rest, size)
        case Crash => Parsed(Crash, p.rest, size)
  }

  /** The operands of an instruction that has up to two. */
  function OperandsFrom(ts: seq<Token>, count: nat): (r: Parsed<seq<Operand>>)
    ensures |r.rest| <= |ts|
  {
    if count == 0 then Parsed(Ok([]), ts, 0)
    else
      var first := OperandFrom(ts);
      match first.result
      case Failed => Parsed(Failed, first.rest, first.size)
      case ExitOne => Parsed(ExitOne, first.rest, first.size)
      case Crash => Parsed(Crash, first.rest, first.size)
      case Ok(o1) =>
        var ts2 := SkipSeparator(first.rest);
        if count == 1 then Parsed(Ok([o1]), ts2, first.size)
        else
          var second := OperandFrom(ts2);
          var size := first.size + second.size;
          match second.result
          case Failed => Parsed(Failed, second.rest, size)
          case ExitOne => Parsed(ExitOne, second.rest, size)
          case Crash => Parsed(Crash, second.rest, size)
          case Ok(o2) => Parsed(Ok([o1, o2]), second.rest, size)
  }

  predicate IsLabel(s: string) {
    s != "" && s[|s| - 1] == ':'
  }

  /** parse_line */
  function LineFrom(ts: seq<Token>): (r: Parsed<Line>)
    ensures |r.rest| <= |ts|
    ensures r.result.Ok? && r.result.value != Blank ==> |r.rest| < |ts|
  {
    var t := First(ts);
    match t.kind
    case Register => Parsed(Ok(Blank), ts, 0)
    case Separator => Parsed(Ok(Blank), ts, 0)
    case Unknown => Parsed(Ok(Blank), ts, 0)
    case Directive => Parsed(Ok(Direct(t.tag)), Rest(ts), 0)
    case Identifier =>
      if t.text == "" then Parsed(Crash, ts, 0)
      else if IsLabel(t.text) then Parsed(Ok(Label(t.text[..|t.text| - 1])), Rest(ts), Block(|t.text|))
      else if IsOpcode(t.text) then
        var p := InstructionFrom(ts);
        (match p.result
         case Failed => Parsed(Failed, p.rest, p.size)
         case ExitOne => Parsed(ExitOne, p.rest, p.size)
         case Crash => Parsed(Crash, p.rest, p.size)
         case Ok(i) => Parsed(Ok(Instr(i)), p.rest, p.size))
      else Parsed(Ok(Blank), ts, 0)
    case Eof => Parsed(Ok(Blank), Rest(ts), 0)
    case Literal => Parsed(Failed, ts, 0)
  }

  /**
   The loop of parse_program behind `lines`, with `free` bytes in the arena. A line that
   is read without consuming a token is read again and again, until the capacity is used up.
   */
  function LinesFrom(ts: seq<Token>, capacity: nat, lines: seq<Line>, free: nat): Outcome<seq<Line>>
    requires |lines| <= capacity
    decreases |ts| + capacity - |lines|
  {
    if ts == [] then Ok(lines)
    else if ts[0].kind == Separator && ts[0].tag == SEP_EOL then LinesFrom(ts[1..], capacity, lines, free)
    else if ts[0].kind == Eof then Ok(lines)
    else if |lines| == capacity then ExitOne
    else
      var p := LineFrom(ts);
      if p.size > free then ExitOne
      else
        match p.result
        case Ok(line) => LinesFrom(p.rest, capacity, lines + [line], free - p.size)
        case Failed => Failed
        case ExitOne => ExitOne
        case Crash => Crash
  }

  /** One round of the loop. */
  lemma LinesUnfold(ts: seq<Token>, capacity: nat, lines: seq<Line>, free: nat)
    requires |lines| <= capacity
    ensures LinesFrom(ts, capacity, lines, free) ==
            if ts == [] then Ok(lines)
            else if ts[0].kind == Separator && ts[0].tag == SEP_EOL then LinesFrom(ts[1..], capacity, lines, free)
            else if ts[0].kind == Eof then Ok(lines)
            else if |lines| == capacity || LineFrom(ts).size > free then ExitOne
            else
              match LineFrom(ts).result
              case Ok(line) => LinesFrom(LineFrom(ts).rest, capacity, lines + [line], free - LineFrom(ts).size)
              case Failed => Failed
              case ExitOne => ExitOne
              case Crash => Crash
  {
    hide LineFrom;
  }

  /** parse_program: arena_calloc yields no lines for a capacity of zero or less. */
  function ProgramFrom(ts: seq<Token>, capacity: int, free: nat): Outcome<seq<Line>> {
    if capacity <= 0 then Failed
    else if Block(capacity * SIZEOF_LINE) > free then ExitOne
    else LinesFrom(ts, capacity, [], free - Block(capacity * SIZEOF_LINE))
  }

  // ---- the parser ----

  /** parse_register: 0xFF where there is no register */
  method ParseRegister(stream: TokenStream) returns (id: nat)
    requires stream.Valid()
    modifies stream`current, stream`nodes
    ensures stream.Valid()
    ensures var ts := old(stream.Remaining());
            if ts != [] && ts[0].kind == Register then id == ts[0].tag % 256 && stream.Remaining() == ts[1..]
            else id == NOT_FOUND && stream.Remaining() == ts
  {
    if stream.current == null {
      return NOT_FOUND;
    }
    var token := stream.Peek();
    if token.kind == Register {
      id := token.tag % 256;
      var _ := stream.Consume();
    } else {
      return NOT_FOUND;
    }
  }

  method ParseInteger(stream: TokenStream) returns (r: Outcome<U32>)
    requires stream.Valid()
    modifies stream`current, stream`nodes
    ensures stream.Valid()
    ensures r == if old(stream.Remaining()) == [] then Failed else IntegerOf(old(stream.Remaining())[0].val)
    ensures stream.Remaining() == if r.Ok? then Rest(old(stream.Remaining())) else old(stream.Remaining())
  {
    if stream.current == null {
      return Failed;
    }
    var token := stream.Peek();
    var val := token.val;
    if val < INT32_MIN || val > UINT32_MAX {
      return Failed;
    }
    r := Ok(val % TWO_TO_THE_32);
    var _ := stream.Consume();
  }

  /** What a parse function promises: it exits where the arena, with `free` bytes left, does not hold what it takes. */
  ghost predicate Does<T>(arena: MemoryArena, stream: TokenStream, free: nat, r: Outcome<T>, p: Parsed<T>)
    reads arena, arena.buffer, stream, stream.nodes
  {
    && arena.Valid() && stream.Valid()
    && if p.size > free then r == ExitOne
       else r == p.result && stream.Remaining() == p.rest && arena.Free() == free - p.size
  }

  method ParseOperand(arena: MemoryArena, stream: TokenStream) returns (r: Outcome<Operand>)
    requires arena.Valid() && stream.Valid()
    modifies arena, arena.buffer, stream`current, stream`nodes
    ensures Does(arena, stream, old(arena.Free()), r, OperandFrom(old(stream.Remaining())))
  {
    hide IntegerOf, SkipSeparator, MemoryArena.Valid, MemoryArena.Free, TokenStream.Valid, TokenStream.Remaining;
    stream.AtEnd();
    if stream.current == null {
      return Failed;
    }
    ConsumeSeparator(stream);
    var token := stream.Peek();
    if token.kind == Register {
      var id := ParseRegister(stream);
      if id == NOT_FOUND {
        return Failed;
      }
      r := Ok(Reg(id));
    } else if token.kind == Identifier {
      r := Ok(Symbol(token.text));
      var _ := stream.Consume();
    } else if token.tag == LIT_INTEGER {
      var value := ParseInteger(stream);
      if !value.Ok? {
        return Failed;
      }
      r := Ok(Int(value.value));
    } else if token.tag == LIT_CHAR {
      var chr := token.val % 256;
      if chr == 0 {
        return Failed;
      }
      r := Ok(Chr(chr));
    } else if token.tag == LIT_STRING {
      if token.val == 0 {
        return Crash;
      }
      var ok := arena.Reserve(|token.text| + 1);
      if !ok {
        return ExitOne;
      }
      r := Ok(Str(token.text));
      var _ := stream.Consume();
    } else {
      return Failed;
    }
  }

  method ParseOpcode(arena: MemoryArena, stream: TokenStream) returns (r: Outcome<nat>)
    requires arena.Valid() && stream.Valid()
    modifies arena, arena.buffer, stream`current, stream`nodes
    ensures var ts := old(stream.Remaining());
            Does(arena, stream, old(arena.Free()), r,
                 if First(ts).kind != Identifier then Parsed(Failed, ts, 0)
                 else if IsOpcode(First(ts).text) then
                   Parsed(Ok(OpcodeLookup(First(ts).text)), Rest(ts), CopySize(First(ts).text))
                 else Parsed(Failed, ts, CopySize(First(ts).text)))
  {
    hide MemoryArena.Valid, TokenStream.Valid, TokenStream.Remaining;
    var token := stream.Peek();
    if token.kind == Identifier {
      var ok := arena.Reserve(|token.text| + 1);
      if !ok {
        return ExitOne;
      }
      var opcode := FindOpcode(token.text);
      if opcode == NOT_FOUND {
        return Failed;
      }
      r := Ok(opcode);
      var _ := stream.Consume();
    } else {
      return Failed;
    }
  }

  /** A separator is stepped over, whether comma or end of line. */
  method ConsumeSeparator(stream: TokenStream)
    requires stream.Valid()
    modifies stream`current, stream`nodes
    ensures stream.Valid() && stream.Remaining() == SkipSeparator(old(stream.Remaining()))
  {
    var token := stream.Peek();
    if token.kind == Separator {
      var _ := stream.Consume();
    }
  }

  /** The operands of parse_instruction. */
  method ParseOperands(arena: MemoryArena, stream: TokenStream, count: nat) returns (r: Outcome<seq<Operand>>)
    requires arena.Valid() && stream.Valid()
    modifies arena, arena.buffer, stream`current, stream`nodes
    ensures Does(arena, stream, old(arena.Free()), r, OperandsFrom(old(stream.Remaining()), count))
  {
    hide OperandFrom, SkipSeparator, MemoryArena.Valid, TokenStream.Valid, TokenStream.Remaining;
    if count == 0 {
      return Ok([]);
    }
    var operand1 := ParseOperand(arena, stream);
    match operand1 {
      case Ok(_) =>
      case Failed => return Failed;
      case ExitOne => return ExitOne;
      case Crash => return Crash;
    }
    ConsumeSeparator(stream);
    if count == 1 {
      return Ok([operand1.value]);
    }
    var operand2 := ParseOperand(arena, stream);
    match operand2 {
      case Ok(_) =>
      case Failed => return Failed;
      case ExitOne => return ExitOne;
      case Crash => return Crash;
    }
    r := Ok([operand1.value, operand2.value]);
  }

  method ParseInstruction(arena: MemoryArena, stream: TokenStream) returns (r: Outcome<Instruction>)
    requires arena.Valid() && stream.Valid()
    modifies arena, arena.buffer, stream`current, stream`nodes
    ensures Does(arena, stream, old(arena.Free()), r, InstructionFrom(old(stream.Remaining())))
  {
    hide OperandsFrom, SkipSeparator, MemoryArena.Valid, OpcodeLookup, TokenStream.Valid, TokenStream.Remaining;
    var opcode := ParseOpcode(arena, stream);
    match opcode {
      case Ok(_) =>
      case Failed => return Failed;
      case ExitOne => return ExitOne;
      case Crash => return Crash;
    }
    ConsumeSeparator(stream);
    var operands := ParseOperands(arena, stream, VmCore.OperandCount(opcode.value));
    match operands {
      case Ok(os) => return Ok(Instruction(opcode.value, os));
      case Failed => return Failed;
      case ExitOne => return ExitOne;
      case Crash => return Crash;
    }
  }

  /** parse_directive: whether operands follow is asked of the directive itself, so none are read. */
  method ParseDirective(stream: TokenStream) returns (r: Outcome<nat>)
    requires stream.Valid()
    modifies stream`current, stream`nodes
    ensures stream.Valid()
    ensures var ts := old(stream.Remaining());
            if First(ts).kind == Directive then r == Ok(First(ts).tag) && stream.Remaining() == Rest(ts)
            else r == Failed && stream.Remaining() == ts
  {
    var token := stream.Peek();
    var isValidOperand := token.kind == Identifier || token.kind == Literal || token.kind == Register;
    if token.kind == Directive {
      var _ := stream.Consume();
      if isValidOperand {
        assert false;
      }
      r := Ok(token.tag);
    } else {
      return Failed;
    }
  }

  method ParseLabelDef(arena: MemoryArena, stream: TokenStream) returns (r: Outcome<string>)
    requires arena.Valid() && stream.Valid() && First(stream.Remaining()).text != ""
    modifies arena, arena.buffer, stream`current, stream`nodes
    ensures var ts := old(stream.Remaining());
            var text := First(ts).text;
            Does(arena, stream, old(arena.Free()), r, Parsed(Ok(text[..|text| - 1]), Rest(ts), Block(|text|)))
  {
    hide MemoryArena.Valid, TokenStream.Valid, TokenStream.Remaining;
    var token := stream.Peek();
    var len := |token.text| - 1;
    var ok := arena.Reserve(len + 1);
    if !ok {
      return ExitOne;
    }
    r := Ok(token.text[..len]);
    var _ := stream.Consume();
  }

  /** parse_line: where nothing is stored, the line stays blank. */
  method ParseLine(arena: MemoryArena, stream: TokenStream) returns (r: Outcome<Line>)
    requires arena.Valid() && stream.Valid()
    modifies arena, arena.buffer, stream`current, stream`nodes
    ensures Does(arena, stream, old(arena.Free()), r, LineFrom(old(stream.Remaining())))
  {
    hide InstructionFrom, IsOpcode, OpcodeLookup, MemoryArena.Valid, MemoryArena.Free, TokenStream.Valid,
         TokenStream.Remaining;
    var token := stream.Peek();
    match token.kind {
      case Register => return Ok(Blank);
      case Separator => return Ok(Blank);
      case Unknown => return Ok(Blank);
      case Directive =>
        var directive := ParseDirective(stream);
        return Ok(Direct(directive.value));
      case Identifier =>
        if token.text == "" {
          return Crash;
        }
        if token.text[|token.text| - 1] == ':' {
          var name := ParseLabelDef(arena, stream);
          if !name.Ok? {
            return ExitOne;
          }
          return Ok(Label(name.value));
        }
        var opcode := FindOpcode(token.text);
        if opcode == NOT_FOUND {
          return Ok(Blank);
        }
        var instruction := ParseInstruction(arena, stream);
        match instruction {
          case Ok(i) => return Ok(Instr(i));
          case Failed => return Failed;
          case ExitOne => return ExitOne;
          case Crash => return Crash;
        }
      case Eof =>
        var _ := stream.Consume();
        return Ok(Blank);
      case Literal => return Failed;
    }
  }

  /** The loop of parse_program. */
  method ParseLines(arena: MemoryArena, stream: TokenStream, out: array<Line>)
    returns (r: Outcome<()>, lineCount: nat)
    requires arena.Valid() && stream.Valid()
    modifies out, arena, arena.buffer, stream`current, stream`nodes
    ensures match LinesFrom(old(stream.Remaining()), out.Length, [], old(arena.Free()))
            case Ok(parsed) => r == Ok(()) && lineCount == |parsed| <= out.Length && out[..lineCount] == parsed
            case Failed => r == Failed
            case ExitOne => r == ExitOne
            case Crash => r == Crash
  {
    hide LineFrom, LinesFrom, MemoryArena.Valid, MemoryArena.Free, TokenStream.Valid, TokenStream.Remaining;
    lineCount := 0;
    ghost var parsed: seq<Line> := [];
    stream.AtEnd();
    ghost var result := LinesFrom(stream.Remaining(), out.Length, [], arena.Free());
    while stream.current != null
      invariant arena.Valid() && stream.Valid()
      invariant stream.current == null <==> stream.Remaining() == []
      invariant lineCount <= out.Length && out[..lineCount] == parsed
      invariant LinesFrom(stream.Remaining(), out.Length, parsed, arena.Free()) == result
      decreases |stream.Remaining()| + out.Length - lineCount
    {
      LinesUnfold(stream.Remaining(), out.Length, parsed, arena.Free());
      var token := stream.Peek();
      if token.kind == Separator && token.tag == SEP_EOL {
        var _ := stream.Consume();
        stream.AtEnd();
        continue;
      }
      if token.kind == Eof {
        break;
      }
      if lineCount == out.Length {
        return ExitOne, lineCount;
      }
      var status := ParseLine(arena, stream);
      match status {
        case Ok(line) =>
          stream.AtEnd();
          out[lineCount] := line;
          lineCount := lineCount + 1;
          parsed := parsed + [line];
        case Failed => return Failed, lineCount;
        case ExitOne => return ExitOne, lineCount;
        case Crash => return Crash, lineCount;
      }
    }
    LinesUnfold(stream.Remaining(), out.Length, parsed, arena.Free());
    r := Ok(());
  }

  class Program {
    var lines: array?<Line>
    var capacity: int
    var count: int

    constructor (capacity: int)
      ensures this.capacity == capacity && lines == null && count == 0
    {
      lines, this.capacity, count := null, capacity, 0;
    }

    /** parse_program */
    method Parse(arena: MemoryArena, stream: TokenStream) returns (r: Outcome<()>)
      requires arena.Valid() && stream.Valid() && -0x8000_0000 <= capacity < 0x8000_0000
      modifies this`lines, this`count, arena, arena.buffer, stream`current, stream`nodes
      ensures match ProgramFrom(old(stream.Remaining()), capacity, old(arena.Free()))
              case Ok(parsed) => r == Ok(()) && lines != null && fresh(lines)
                                 && count == |parsed| <= lines.Length == capacity && lines[..count] == parsed
              case Failed => r == Failed
              case ExitOne => r == ExitOne
              case Crash => r == Crash
    {
      hide LinesFrom, MemoryArena.Valid, MemoryArena.Free, TokenStream.Valid, TokenStream.Remaining;
      var reservation := arena.ReserveArray(capacity, SIZEOF_LINE);
      if reservation == Null {
        lines := null;
        return Failed;
      }
      if reservation == Exits {
        return ExitOne;
      }
      var out := new Line[capacity](_ => Blank);
      lines := out;
      var status, lineCount := ParseLines(arena, stream, out);
      if status.Ok? {
        count := lineCount;
      }
      return status;
    }
  }
}
