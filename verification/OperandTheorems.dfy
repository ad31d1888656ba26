/** What parse_operand refuses, and what separators, literals and blank lines are worth to the parser. */
module OperandTheorems {
  import opened Arena
  import opened Tokens
  import opened TokenStreams
  import opened Parser
  import opened ParserTheorems
  import VmCore

  // ---- opcodes, by name ----

  lemma OpcodeNumbers()
    ensures OpcodeLookup("print_chr") == 0x00 && OpcodeLookup("print_str") == 0x01 && OpcodeLookup("mov") == 0x02
    ensures OpcodeLookup("load_addr") == 0x03 && OpcodeLookup("add") == 0x04 && OpcodeLookup("sub") == 0x05
    ensures OpcodeLookup("mul") == 0x06 && OpcodeLookup("div") == 0x07 && OpcodeLookup("mod") == 0x08
    ensures OpcodeLookup("and") == 0x09 && OpcodeLookup("or") == 0x0a && OpcodeLookup("not") == 0x0b
    ensures OpcodeLookup("cmp") == 0x0c && OpcodeLookup("jz") == 0x0d && OpcodeLookup("jnz") == 0x0e
    ensures OpcodeLookup("jeq") == 0x0f && OpcodeLookup("jgt") == 0x10 && OpcodeLookup("jge") == 0x11
    ensures OpcodeLookup("jlt") == 0x12 && OpcodeLookup("jle") == 0x13 && OpcodeLookup("jmp") == 0x14
    ensures OpcodeLookup("call") == 0x15 && OpcodeLookup("ret") == 0x16 && OpcodeLookup("push") == 0x17
    ensures OpcodeLookup("pop") == 0x18 && OpcodeLookup("halt") == 0x19
  {
    hide OpcodeLookup;
    DataOpcodes();
    ControlOpcodes();
  }

  lemma DataOpcodes()
    ensures OpcodeLookup("print_chr") == 0x00 && OpcodeLookup("print_str") == 0x01 && OpcodeLookup("mov") == 0x02
    ensures OpcodeLookup("load_addr") == 0x03 && OpcodeLookup("add") == 0x04 && OpcodeLookup("sub") == 0x05
    ensures OpcodeLookup("mul") == 0x06 && OpcodeLookup("div") == 0x07 && OpcodeLookup("mod") == 0x08
    ensures OpcodeLookup("and") == 0x09 && OpcodeLookup("or") == 0x0a && OpcodeLookup("not") == 0x0b
    ensures OpcodeLookup("cmp") == 0x0c
  {
    hide OpcodeLookup;
    Numbered("print_chr", 0x00);
    Numbered("print_str", 0x01);
    Numbered("mov", 0x02);
    Numbered("load_addr", 0x03);
    Numbered("add", 0x04);
    Numbered("sub", 0x05);
    Numbered("mul", 0x06);
    Numbered("div", 0x07);
    Numbered("mod", 0x08);
    Numbered("and", 0x09);
    Numbered("or", 0x0a);
    Numbered("not", 0x0b);
    Numbered("cmp", 0x0c);
  }

  lemma ControlOpcodes()
    ensures OpcodeLookup("jz") == 0x0d && OpcodeLookup("jnz") == 0x0e && OpcodeLookup("jeq") == 0x0f
    ensures OpcodeLookup("jgt") == 0x10 && OpcodeLookup("jge") == 0x11 && OpcodeLookup("jlt") == 0x12
    ensures OpcodeLookup("jle") == 0x13 && OpcodeLookup("jmp") == 0x14 && OpcodeLookup("call") == 0x15
    ensures OpcodeLookup("ret") == 0x16 && OpcodeLookup("push") == 0x17 && OpcodeLookup("pop") == 0x18
    ensures OpcodeLookup("halt") == 0x19
  {
    hide OpcodeLookup;
    Numbered("jz", 0x0d);
    Numbered("jnz", 0x0e);
    Numbered("jeq", 0x0f);
    Numbered("jgt", 0x10);
    Numbered("jge", 0x11);
    Numbered("jlt", 0x12);
    Numbered("jle", 0x13);
    Numbered("jmp", 0x14);
    Numbered("call", 0x15);
    Numbered("ret", 0x16);
    Numbered("push", 0x17);
    Numbered("pop", 0x18);
    Numbered("halt", 0x19);
  }

  lemma Numbered(name: string, opcode: nat)
    requires opcode < |OPCODES| && OPCODES[opcode] == name
    ensures OpcodeLookup(name) == opcode
  {
    hide OpcodeLookup;
    OpcodeNames(opcode);
  }

  lemma OperandCounts(opcode: nat)
    requires opcode < |OPCODES|
    ensures var name := OpcodeName(opcode);
            VmCore.OperandCount(opcode) ==
            if name in {"cmp", "ret", "halt"} then 0
            else if name in {"mov", "load_addr", "add", "sub", "mul", "div", "mod", "and", "or"} then 2
            else 1
  {
    var name := OpcodeName(opcode);
    assert |name| <= 9 && name[0] != 'x';
  }

  // ---- numbers ----

  function NumberLiteral(v: int): Token {
    Token(Literal, 0, v, "")
  }

  /** A number is an operand iff it fits into 32 bits, signed or unsigned; otherwise it is refused and stays. */
  lemma NumberOperand(v: int, rest: seq<Token>)
    ensures OperandFrom([NumberLiteral(v)] + rest)
         == if -0x8000_0000 <= v <= 0xFFFF_FFFF then Parsed(Ok(Int(v % 0x1_0000_0000)), rest, 0)
            else Parsed(Failed, [NumberLiteral(v)] + rest, 0)
  {
    StepOver(NumberLiteral(v), rest);
  }

  /** The operand of `opcode` that is refused: the first, or the second behind `before`. */
  function BadCommand(opcode: nat, before: seq<Argument>, v: int): seq<Token>
    requires opcode < |OPCODES| && |before| <= 1
  {
    if before == [] then [OpcodeToken(opcode), NumberLiteral(v)]
    else [OpcodeToken(opcode), ArgumentToken(before[0]), COMMA_TOKEN, NumberLiteral(v)]
  }

  ghost predicate Refusable(opcode: nat, before: seq<Argument>, v: int) {
    && opcode < |OPCODES| && |before| <= 1 && |before| < VmCore.OperandCount(opcode) && ArgumentsOk(before)
    && (v < -0x8000_0000 || v > 0xFFFF_FFFF)
  }

  lemma NumberStays(v: int, rest: seq<Token>)
    ensures SkipSeparator([NumberLiteral(v)] + rest) == [NumberLiteral(v)] + rest
  {
    StepOver(NumberLiteral(v), rest);
  }

  /** A number out of range is refused as either operand of every opcode that has it. */
  lemma NumberRefuses(opcode: nat, before: seq<Argument>, v: int, rest: seq<Token>)
    requires Refusable(opcode, before, v)
    ensures var p := LineFrom(BadCommand(opcode, before, v) + rest);
            p.result == Failed && p.size == CopySize(OpcodeName(opcode))
  {
    hide OpcodeName, LineFrom, OperandFrom, SkipSeparator, ArgumentOk, ArgumentToken, OperandMeant;
    var bad := [NumberLiteral(v)] + rest;
    NumberOperand(v, rest);
    NumberStays(v, rest);
    if before == [] {
      assert BadCommand(opcode, before, v) + rest == [OpcodeToken(opcode)] + bad;
      ReadOpcode(opcode, bad);
    } else {
      assert before[0] in before;
      var ts := [ArgumentToken(before[0])] + ([COMMA_TOKEN] + bad);
      assert BadCommand(opcode, before, v) + rest == [OpcodeToken(opcode)] + ts;
      ReadOpcode(opcode, ts);
      ReadArgument(before[0], ts, [COMMA_TOKEN] + bad);
      StepOver(COMMA_TOKEN, bad);
    }
  }

  /** And with it the program, wherever it stands and whatever follows. */
  lemma {:induction false} NumberRefusesProgram(ss: seq<Statement>, opcode: nat, before: seq<Argument>, v: int,
                                                rest: seq<Token>, capacity: nat, lines: seq<Line>, free: nat)
    requires (forall s | s in ss :: StatementOk(s)) && Refusable(opcode, before, v) && |lines| <= capacity
    ensures LinesFrom(ProgramTokens(ss) + (BadCommand(opcode, before, v) + rest), capacity, lines, free)
         == if |lines| + |ss| < capacity && StatementsSize(ss) + CopySize(OpcodeName(opcode)) <= free
            then Failed else ExitOne
    decreases |ss|
  {
    hide LineFrom, LinesFrom, StatementTokens, StatementOk, StatementSize, LineMeant, BadCommand, OpcodeName;
    hide ProgramTokens, StatementsSize;
    var bad := BadCommand(opcode, before, v) + rest;
    ProgramBegins(ss, bad);
    if ss == [] {
      NumberRefuses(opcode, before, v, rest);
      BadCommandStarts(opcode, before, v);
      LinesUnfold(bad, capacity, lines, free);
    } else {
      var s, behind := ss[0], ProgramTokens(ss[1..]) + bad;
      StatementRead(s, behind, capacity, lines, free);
      if |lines| < capacity && StatementSize(s) <= free {
        NumberRefusesProgram(ss[1..], opcode, before, v, rest, capacity, lines + [LineMeant(s)],
                             free - StatementSize(s));
      }
    }
  }

  lemma BadCommandStarts(opcode: nat, before: seq<Argument>, v: int)
    requires opcode < |OPCODES| && |before| <= 1
    ensures BadCommand(opcode, before, v) != [] && BadCommand(opcode, before, v)[0].kind == Identifier
  {
  }

  lemma ProgramBegins(ss: seq<Statement>, rest: seq<Token>)
    requires forall s | s in ss :: StatementOk(s)
    ensures if ss == [] then ProgramTokens(ss) + rest == rest && StatementsSize(ss) == 0
            else
              && StatementOk(ss[0]) && (forall s | s in ss[1..] :: StatementOk(s))
              && ProgramTokens(ss) + rest == StatementTokens(ss[0]) + (ProgramTokens(ss[1..]) + rest)
              && StatementsSize(ss) == StatementSize(ss[0]) + StatementsSize(ss[1..])
  {
    hide StatementTokens, StatementOk, StatementSize;
  }

  // ---- separators ----

  function Commas(n: nat): seq<Token> {
    if n == 0 then [] else [COMMA_TOKEN] + Commas(n - 1)
  }

  lemma SkipCommas(n: nat, t: Token, rest: seq<Token>)
    requires t.kind != Separator
    ensures SkipSeparator(Commas(n) + ([t] + rest)) == Commas(if n == 0 then 0 else n - 1) + ([t] + rest)
  {
    if n == 0 {
      assert Commas(0) + ([t] + rest) == [t] + rest;
      StepOver(t, rest);
    } else {
      var more := Commas(n - 1) + ([t] + rest);
      assert Commas(n) + ([t] + rest) == [COMMA_TOKEN] + more;
      StepOver(COMMA_TOKEN, more);
    }
  }

  /** Up to one comma before an operand is stepped over; the second of two or more is taken for the integer 0. */
  lemma CommasBefore(n: nat, a: Argument, rest: seq<Token>)
    requires ArgumentOk(a)
    ensures OperandFrom(Commas(n) + ([ArgumentToken(a)] + rest))
         == if n <= 1 then Parsed(Ok(OperandMeant(a)), rest, 0)
            else Parsed(Ok(Int(0)), Commas(n - 2) + ([ArgumentToken(a)] + rest), 0)
  {
    hide OperandFrom, Commas, ArgumentOk, OperandMeant, ArgumentToken;
    var ts := [ArgumentToken(a)] + rest;
    CommasUnfold(n, ts);
    if n == 0 {
      ReadArgument(a, ts, rest);
    } else if n == 1 {
      CommaThen(a, rest);
    } else {
      CommasUnfold(n - 1, ts);
      CommaAsOperand(Commas(n - 2) + ts);
    }
  }

  lemma CommasUnfold(n: nat, ts: seq<Token>)
    ensures Commas(n) + ts == if n == 0 then ts else [COMMA_TOKEN] + (Commas(n - 1) + ts)
  {
  }

  lemma CommaThen(a: Argument, rest: seq<Token>)
    requires ArgumentOk(a)
    ensures OperandFrom(Commas(1) + ([ArgumentToken(a)] + rest)) == Parsed(Ok(OperandMeant(a)), rest, 0)
  {
    var ts := [ArgumentToken(a)] + rest;
    assert Commas(1) + ts == [COMMA_TOKEN] + ts;
    StepOver(COMMA_TOKEN, ts);
    StepOver(ArgumentToken(a), rest);
  }

  lemma CommaAsOperand(rest: seq<Token>)
    ensures OperandFrom([COMMA_TOKEN] + ([COMMA_TOKEN] + rest)) == Parsed(Ok(Int(0)), rest, 0)
  {
    StepOver(COMMA_TOKEN, [COMMA_TOKEN] + rest);
    StepOver(COMMA_TOKEN, rest);
  }

  /**
   Between the operands of a command no comma, one and two are all the same; the third is read as
   the second operand, the integer 0, and the operand behind it is left to stand by itself.
   */
  lemma CommasBetween(opcode: nat, a: Argument, b: Argument, n: nat, rest: seq<Token>)
    requires opcode < |OPCODES| && VmCore.OperandCount(opcode) == 2 && ArgumentOk(a) && ArgumentOk(b)
    ensures var p := LineFrom([OpcodeToken(opcode), ArgumentToken(a)] + (Commas(n) + ([ArgumentToken(b)] + rest)));
            && p.size == CopySize(OpcodeName(opcode))
            && (n <= 2 ==> p.rest == rest
                           && p.result == Ok(Instr(Instruction(opcode, [OperandMeant(a), OperandMeant(b)]))))
            && (n > 2 ==> p.rest == Commas(n - 3) + ([ArgumentToken(b)] + rest)
                          && p.result == Ok(Instr(Instruction(opcode, [OperandMeant(a), Int(0)]))))
  {
    hide OpcodeName, LineFrom, OperandFrom, SkipSeparator, ArgumentOk, OperandMeant, Commas;
    var tail := Commas(n) + ([ArgumentToken(b)] + rest);
    var ts := [ArgumentToken(a)] + tail;
    assert [OpcodeToken(opcode), ArgumentToken(a)] + tail == [OpcodeToken(opcode)] + ts;
    ReadOpcode(opcode, ts);
    ReadArgument(a, ts, tail);
    ArgumentIsNoSeparator(b);
    SkipCommas(n, ArgumentToken(b), rest);
    CommasBefore(if n == 0 then 0 else n - 1, b, rest);
  }

  lemma ArgumentIsNoSeparator(a: Argument)
    ensures ArgumentToken(a).kind != Separator
  {
  }

  // ---- literals the lexer never tags ----

  /** A tagged character is an operand that is not consumed, so the line behind it starts with a literal. */
  lemma TaggedCharacter(opcode: nat, v: int, rest: seq<Token>, capacity: nat, lines: seq<Line>, free: nat)
    requires opcode < |OPCODES| && VmCore.OperandCount(opcode) == 1
    requires |lines| + 1 < capacity && CopySize(OpcodeName(opcode)) <= free
    ensures LinesFrom([OpcodeToken(opcode)] + ([Token(Literal, 1, v, "")] + rest), capacity, lines, free) == Failed
    ensures LineFrom([OpcodeToken(opcode)] + ([Token(Literal, 1, v, "")] + rest)).result
         == if v % 256 == 0 then Failed else Ok(Instr(Instruction(opcode, [Chr(v % 256)])))
  {
    hide OpcodeName, LineFrom, LinesFrom, SkipSeparator;
    var t := Token(Literal, 1, v, "");
    var ts := [OpcodeToken(opcode)] + ([t] + rest);
    StepOver(t, rest);
    CharacterOperand(v, rest);
    ReadOpcode(opcode, [t] + rest);
    LinesUnfold(ts, capacity, lines, free);
    if v % 256 != 0 {
      LiteralRefused([t] + rest, capacity, lines + [Instr(Instruction(opcode, [Chr(v % 256)]))],
                     free - CopySize(OpcodeName(opcode)));
    }
  }

  lemma LiteralRefused(ts: seq<Token>, capacity: nat, lines: seq<Line>, free: nat)
    requires ts != [] && ts[0].kind == Literal && |lines| < capacity
    ensures LinesFrom(ts, capacity, lines, free) == Failed
  {
    LinesUnfold(ts, capacity, lines, free);
  }

  lemma CharacterOperand(v: int, rest: seq<Token>)
    ensures var ts := [Token(Literal, 1, v, "")] + rest;
            OperandFrom(ts) == Parsed(if v % 256 == 0 then Failed else Ok(Chr(v % 256)), ts, 0)
  {
    StepOver(Token(Literal, 1, v, ""), rest);
  }

  /** A tagged string is copied and consumed, unless it is the null pointer; other tags are refused. */
  lemma TaggedString(tag: nat, v: int, text: string, rest: seq<Token>)
    requires tag >= 2
    ensures var ts := [Token(Literal, tag, v, text)] + rest;
            OperandFrom(ts)
            == if tag > 2 then Parsed(Failed, ts, 0)
               else if v == 0 then Parsed(Crash, ts, 0)
               else Parsed(Ok(Str(text)), rest, CopySize(text))
  {
    StepOver(Token(Literal, tag, v, text), rest);
  }

  /** Of a register's number the low byte is kept, and 255 is refused, its token gone. */
  lemma RegisterOperand(tag: nat, rest: seq<Token>)
    ensures OperandFrom([Token(Kind.Register, tag, 0, "")] + rest)
         == Parsed(if tag % 256 == 255 then Failed else Ok(Reg(tag % 256)), rest, 0)
  {
    StepOver(Token(Kind.Register, tag, 0, ""), rest);
  }

  // ---- lines ----

  function BlankLines(n: nat): seq<Token> {
    if n == 0 then [] else [EOL_TOKEN] + BlankLines(n - 1)
  }

  /** Blank lines count for nothing. */
  lemma {:induction false} BlankLinesIgnored(n: nat, ts: seq<Token>, capacity: nat, lines: seq<Line>, free: nat)
    requires |lines| <= capacity
    ensures LinesFrom(BlankLines(n) + ts, capacity, lines, free) == LinesFrom(ts, capacity, lines, free)
  {
    hide LinesFrom;
    if n == 0 {
      assert BlankLines(n) + ts == ts;
    } else {
      var more := BlankLines(n - 1) + ts;
      assert BlankLines(n) + ts == [EOL_TOKEN] + more;
      assert ([EOL_TOKEN] + more)[1..] == more;
      LinesUnfold([EOL_TOKEN] + more, capacity, lines, free);
      BlankLinesIgnored(n - 1, ts, capacity, lines, free);
    }
  }

  /** Behind TOK_EOF nothing is read, and without a positive capacity nothing at all. */
  lemma EndsAtEof(rest: seq<Token>, capacity: int, free: nat)
    ensures capacity > 0 && 8 + 72 * capacity <= free ==> ProgramFrom([EOF_TOKEN] + rest, capacity, free) == Ok([])
    ensures capacity > 0 && 8 + 72 * capacity > free ==> ProgramFrom([EOF_TOKEN] + rest, capacity, free) == ExitOne
    ensures capacity <= 0 ==> ProgramFrom([EOF_TOKEN] + rest, capacity, free) == Failed
  {
    hide LinesFrom;
    if capacity > 0 && Block(capacity * 72) <= free {
      LinesUnfold([EOF_TOKEN] + rest, capacity, [], free - Block(capacity * 72));
    }
  }

  /** A directive takes its own token only: a number behind it on its line is refused, a register makes it exit. */
  lemma DirectiveAlone(d: nat, rest: seq<Token>, capacity: nat, lines: seq<Line>, free: nat)
    requires |lines| <= capacity
    ensures LineFrom([Token(Directive, d, 0, "")] + rest) == Parsed(Ok(Direct(d)), rest, 0)
    ensures var r := LinesFrom([Token(Directive, d, 0, "")] + rest, capacity, lines, free);
            && (rest != [] && rest[0].kind == Literal ==>
                  r == if |lines| + 1 < capacity then Failed else ExitOne)
            && (rest != [] && rest[0].kind == Kind.Register ==> r == ExitOne)
  {
    hide LinesFrom;
    var ts := [Token(Directive, d, 0, "")] + rest;
    assert ts[1..] == rest;
    LinesUnfold(ts, capacity, lines, free);
    if |lines| < capacity && rest != [] {
      var lines' := lines + [Direct(d)];
      if rest[0].kind == Literal && |lines'| < capacity {
        LiteralRefused(rest, capacity, lines', free);
      } else if rest[0].kind == Literal {
        LinesUnfold(rest, capacity, lines', free);
      } else if rest[0].kind == Kind.Register {
        IdleTokensExit(rest, capacity, lines', free);
      }
    }
  }

  // ---- branches parse_program never takes ----

  /** Where no opcode stands, parse_instruction fails; of a name it has made a copy by then. */
  lemma NoInstruction(ts: seq<Token>)
    requires ts != []
    ensures var name := ts[0].text;
            && (ts[0].kind != Identifier ==> InstructionFrom(ts) == Parsed(Failed, ts, 0))
            && (ts[0].kind == Identifier && name !in OPCODES ==>
                  InstructionFrom(ts) == Parsed(Failed, ts, |name| + 9))
  {
  }

  /** TOK_EOF is a line that is blank, and a separator at the very end of the stream has no operand behind it. */
  lemma AtTheEnd(rest: seq<Token>)
    ensures LineFrom([EOF_TOKEN] + rest) == Parsed(Ok(Blank), rest, 0)
    ensures OperandFrom([]).result == OperandFrom([COMMA_TOKEN]).result == OperandFrom([EOL_TOKEN]).result == Failed
  {
    StepOver(EOF_TOKEN, rest);
  }
}
