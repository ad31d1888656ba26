/** Whole runs of parse_program: when it succeeds, when it exits, and the round trip over tokens. */
module ParserTheorems {
  import opened Arena
  import opened Bits
  import opened Tokens
  import opened TokenStreams
  import opened Parser
  import VmCore

  // ---- lines that consume nothing ----

  /** The tokens from which parse_line returns 0 without storing or consuming anything. */
  predicate Idle(t: Token) {
    match t.kind
    case Register => true
    case Separator => true
    case Unknown => true
    case Identifier => t.text != "" && !IsLabel(t.text) && !IsOpcode(t.text)
    case _ => false
  }

  lemma IdleExactly(ts: seq<Token>)
    requires ts != [] && ts[0].kind != Eof
    ensures Idle(ts[0]) <==> LineFrom(ts).result == Ok(Blank)
    ensures Idle(ts[0]) ==> LineFrom(ts).rest == ts && LineFrom(ts).size == 0
  {
    hide InstructionFrom, IsLabel;
  }

  /** At such a token the loop makes no progress until the lines are used up, and exits. */
  lemma {:induction false} IdleTokensExit(ts: seq<Token>, capacity: nat, lines: seq<Line>, free: nat)
    requires ts != [] && Idle(ts[0]) && !(ts[0].kind == Separator && ts[0].tag == SEP_EOL)
    requires |lines| <= capacity
    ensures LinesFrom(ts, capacity, lines, free) == ExitOne
    decreases capacity - |lines|
  {
    hide LineFrom;
    IdleExactly(ts);
    if |lines| < capacity {
      IdleTokensExit(ts, capacity, lines + [Blank], free);
    }
  }

  /** Success means that every counted line is a real one and took a token of its own. */
  lemma {:induction false} LinesTakeTokens(ts: seq<Token>, capacity: nat, lines: seq<Line>, free: nat)
    requires |lines| <= capacity && LinesFrom(ts, capacity, lines, free).Ok?
    ensures var out := LinesFrom(ts, capacity, lines, free).value;
            lines <= out && |out| <= capacity && |out| - |lines| <= |ts| && Blank !in out[|lines|..]
    decreases |ts| + capacity - |lines|
  {
    hide LineFrom, IsLabel;
    if ts == [] {
    } else if ts[0].kind == Separator && ts[0].tag == SEP_EOL {
      LinesTakeTokens(ts[1..], capacity, lines, free);
    } else if ts[0].kind != Eof {
      var p := LineFrom(ts);
      IdleExactly(ts);
      if Idle(ts[0]) {
        IdleTokensExit(ts, capacity, lines, free);
      } else {
        LinesTakeTokens(p.rest, capacity, lines + [p.result.value], free - p.size);
        var out := LinesFrom(ts, capacity, lines, free).value;
        assert out[|lines|..] == [out[|lines|]] + out[|lines| + 1..];
        assert out[|lines|] == (lines + [p.result.value])[|lines|];
      }
    }
  }

  lemma SuccessBoundsTheCount(ts: seq<Token>, capacity: int, free: nat)
    requires ProgramFrom(ts, capacity, free).Ok?
    ensures var lines := ProgramFrom(ts, capacity, free).value;
            |lines| <= capacity && |lines| <= |ts| && Blank !in lines
  {
    LinesTakeTokens(ts, capacity, [], free - Block(capacity * SIZEOF_LINE));
    var lines := ProgramFrom(ts, capacity, free).value;
    assert lines[0..] == lines;
  }

  // ---- programs as trees, and as tokens ----

  datatype Argument = Register(id: nat) | Name(symbol: string) | Number(value: int)

  datatype Statement = LabelDef(name: string) | Command(opcode: nat, arguments: seq<Argument>) | Order(directive: nat)

  predicate ArgumentOk(a: Argument) {
    match a
    case Register(id) => id < NOT_FOUND
    case Name(_) => true
    case Number(v) => INT32_MIN <= v <= UINT32_MAX
  }

  predicate ArgumentsOk(arguments: seq<Argument>) {
    forall a | a in arguments :: ArgumentOk(a)
  }

  /** Commands have the operands opcode_info says. */
  predicate StatementOk(s: Statement) {
    s.Command? ==>
      s.opcode < |OPCODES| && |s.arguments| == VmCore.OperandCount(s.opcode) && ArgumentsOk(s.arguments)
  }

  /** The operand a program means; of integers the low 32 bits. */
  function OperandMeant(a: Argument): Operand {
    match a
    case Register(id) => Reg(id)
    case Name(s) => Symbol(s)
    case Number(v) => Int(v % TWO_TO_THE_32)
  }

  function OperandsMeant(arguments: seq<Argument>): (r: seq<Operand>)
    ensures |r| == |arguments|
  {
    if arguments == [] then [] else [OperandMeant(arguments[0])] + OperandsMeant(arguments[1..])
  }

  function LineMeant(s: Statement): (r: Line)
    ensures r != Blank
  {
    match s
    case LabelDef(name) => Label(name)
    case Command(opcode, arguments) =>
      Instr(Instruction(opcode, OperandsMeant(arguments)))
    case Order(d) => Direct(d)
  }

  function LinesMeant(ss: seq<Statement>): (r: seq<Line>)
    ensures |r| == |ss|
  {
    if ss == [] then [] else [LineMeant(ss[0])] + LinesMeant(ss[1..])
  }

  function OpcodeName(opcode: nat): string
    requires opcode < |OPCODES|
  {
    OPCODES[opcode]
  }

  function OpcodeToken(opcode: nat): Token
    requires opcode < |OPCODES|
  {
    Token(Identifier, 0, 0, OpcodeName(opcode))
  }

  function ArgumentToken(a: Argument): Token {
    match a
    case Register(id) => Token(Kind.Register, id, 0, "")
    case Name(s) => Token(Identifier, 0, 0, s)
    case Number(v) => Token(Literal, LIT_INTEGER, v, "")
  }

  function ArgumentTokens(arguments: seq<Argument>): seq<Token> {
    if arguments == [] then []
    else if |arguments| == 1 then [ArgumentToken(arguments[0])]
    else [ArgumentToken(arguments[0]), COMMA_TOKEN] + ArgumentTokens(arguments[1..])
  }

  function StatementTokens(s: Statement): seq<Token>
    requires StatementOk(s)
  {
    match s
    case LabelDef(name) => [Token(Identifier, 0, 0, name + ":"), EOL_TOKEN]
    case Command(opcode, arguments) => [OpcodeToken(opcode)] + ArgumentTokens(arguments) + [EOL_TOKEN]
    case Order(d) => [Token(Directive, d, 0, ""), EOL_TOKEN]
  }

  function ProgramTokens(ss: seq<Statement>): seq<Token>
    requires forall s | s in ss :: StatementOk(s)
  {
    if ss == [] then [] else StatementTokens(ss[0]) + ProgramTokens(ss[1..])
  }

  /** What the arena gives for the line of a statement: the name of the label or of the opcode. */
  function StatementSize(s: Statement): nat
    requires StatementOk(s)
  {
    match s
    case LabelDef(name) => CopySize(name)
    case Command(opcode, _) => CopySize(OpcodeName(opcode))
    case Order(_) => 0
  }

  function StatementsSize(ss: seq<Statement>): nat
    requires forall s | s in ss :: StatementOk(s)
  {
    if ss == [] then 0 else StatementSize(ss[0]) + StatementsSize(ss[1..])
  }

  // ---- the round trip over tokens ----

  lemma OpcodeNames(opcode: nat)
    requires opcode < |OPCODES|
    ensures OpcodeLookup(OpcodeName(opcode)) == opcode
    ensures OpcodeName(opcode) != "" && !IsLabel(OpcodeName(opcode))
  {
    hide Lookup;
    OpcodesDiffer(Lookup(OPCODES, OPCODES[opcode]), opcode);
  }

  lemma OpcodesDiffer(i: nat, j: nat)
    requires i < |OPCODES| && j < |OPCODES| && OPCODES[i] == OPCODES[j]
    ensures i == j
  {
    var s, t := OPCODES[i], OPCODES[j];
    assert |s| == |t| && s[0] == t[0] && s[1] == t[1];
    assert |s| > 2 ==> s[2] == t[2];
  }

  lemma ReadArgument(a: Argument, ts: seq<Token>, rest: seq<Token>)
    requires ArgumentOk(a) && ts == [ArgumentToken(a)] + rest
    ensures SkipSeparator(ts) == ts && OperandFrom(ts) == Parsed(Ok(OperandMeant(a)), rest, 0)
  {
    assert Rest(ts) == rest;
  }

  lemma StepOver(t: Token, rest: seq<Token>)
    ensures First([t] + rest) == t && Rest([t] + rest) == rest
    ensures SkipSeparator([t] + rest) == if t.kind == Separator then rest else [t] + rest
  {
  }

  /** A line that starts with an opcode, in terms of the operands behind it. */
  lemma ReadOpcode(opcode: nat, ts: seq<Token>)
    requires opcode < |OPCODES|
    ensures var p := LineFrom([OpcodeToken(opcode)] + ts);
            var o := OperandsFrom(SkipSeparator(ts), VmCore.OperandCount(opcode));
            && p.rest == o.rest && p.size == CopySize(OpcodeName(opcode)) + o.size
            && p.result == match o.result
                           case Ok(operands) => Ok(Instr(Instruction(opcode, operands)))
                           case Failed => Failed
                           case ExitOne => ExitOne
                           case Crash => Crash
  {
    hide OpcodeLookup, OpcodeName, OperandsFrom, SkipSeparator, Rest, First, IsLabel;
    OpcodeNames(opcode);
    StepOver(OpcodeToken(opcode), ts);
  }

  lemma ReadOneOperand(a: Argument, rest: seq<Token>)
    requires ArgumentOk(a)
    ensures OperandsFrom(SkipSeparator([ArgumentToken(a)] + ([EOL_TOKEN] + rest)), 1)
         == Parsed(Ok([OperandMeant(a)]), rest, 0)
  {
    hide OperandFrom, SkipSeparator, Rest, First, ArgumentOk;
    var end := [EOL_TOKEN] + rest;
    StepOver(EOL_TOKEN, rest);
    ReadArgument(a, [ArgumentToken(a)] + end, end);
  }

  lemma ReadTwoOperands(a: Argument, b: Argument, rest: seq<Token>)
    requires ArgumentOk(a) && ArgumentOk(b)
    ensures OperandsFrom(SkipSeparator([ArgumentToken(a)]
                                       + ([COMMA_TOKEN] + ([ArgumentToken(b)] + ([EOL_TOKEN] + rest)))), 2)
         == Parsed(Ok([OperandMeant(a), OperandMeant(b)]), [EOL_TOKEN] + rest, 0)
  {
    hide OperandFrom, SkipSeparator, Rest, First, ArgumentOk;
    var end := [EOL_TOKEN] + rest;
    var ts2 := [ArgumentToken(b)] + end;
    ReadArgument(a, [ArgumentToken(a)] + ([COMMA_TOKEN] + ts2), [COMMA_TOKEN] + ts2);
    StepOver(COMMA_TOKEN, ts2);
    ReadArgument(b, ts2, end);
  }

  lemma ReadNoOperand(rest: seq<Token>)
    ensures OperandsFrom(SkipSeparator([EOL_TOKEN] + rest), 0) == Parsed(Ok([]), rest, 0)
  {
    StepOver(EOL_TOKEN, rest);
  }

  /** The operands of a printed command, with the end of line, which two operands leave. */
  lemma ReadOperands(arguments: seq<Argument>, rest: seq<Token>)
    requires |arguments| <= 2 && ArgumentsOk(arguments)
    ensures OperandsFrom(SkipSeparator(ArgumentTokens(arguments) + ([EOL_TOKEN] + rest)), |arguments|)
         == Parsed(Ok(OperandsMeant(arguments)), if |arguments| == 2 then [EOL_TOKEN] + rest else rest, 0)
  {
    hide OperandsFrom, SkipSeparator, ArgumentsOk, ArgumentTokens, OperandsMeant, ArgumentOk;
    var end := [EOL_TOKEN] + rest;
    ArgumentList(arguments);
    if |arguments| == 0 {
      assert ArgumentTokens(arguments) + end == end;
      ReadNoOperand(rest);
    } else if |arguments| == 1 {
      ReadOneOperand(arguments[0], rest);
    } else {
      var a, b := ArgumentToken(arguments[0]), ArgumentToken(arguments[1]);
      assert ArgumentTokens(arguments) + end == [a] + ([COMMA_TOKEN] + ([b] + end));
      ReadTwoOperands(arguments[0], arguments[1], rest);
    }
  }

  lemma ArgumentList(arguments: seq<Argument>)
    requires |arguments| <= 2 && ArgumentsOk(arguments)
    ensures |arguments| == 0 ==> ArgumentTokens(arguments) == [] && OperandsMeant(arguments) == []
    ensures |arguments| == 1 ==> ArgumentOk(arguments[0]) && ArgumentTokens(arguments) == [ArgumentToken(arguments[0])]
                                 && OperandsMeant(arguments) == [OperandMeant(arguments[0])]
    ensures |arguments| == 2 ==> ArgumentOk(arguments[0]) && ArgumentOk(arguments[1])
                                 && ArgumentTokens(arguments)
                                    == [ArgumentToken(arguments[0]), COMMA_TOKEN, ArgumentToken(arguments[1])]
                                 && OperandsMeant(arguments) == [OperandMeant(arguments[0]), OperandMeant(arguments[1])]
  {
    hide ArgumentOk, ArgumentToken, OperandMeant, ArgumentTokens, OperandsMeant;
    if |arguments| == 0 {
      NoArguments();
    } else if |arguments| == 1 {
      assert arguments[0] in arguments && arguments == [arguments[0]];
      OneArgument(arguments[0]);
    } else {
      assert arguments[0] in arguments && arguments[1] in arguments && arguments == [arguments[0], arguments[1]];
      TwoArguments(arguments[0], arguments[1]);
    }
  }

  lemma NoArguments()
    ensures ArgumentTokens([]) == [] && OperandsMeant([]) == []
  {
  }

  lemma OneArgument(a: Argument)
    ensures ArgumentTokens([a]) == [ArgumentToken(a)] && OperandsMeant([a]) == [OperandMeant(a)]
  {
    hide ArgumentToken, OperandMeant;
  }

  lemma TwoArguments(a: Argument, b: Argument)
    ensures ArgumentTokens([a, b]) == [ArgumentToken(a), COMMA_TOKEN, ArgumentToken(b)]
    ensures OperandsMeant([a, b]) == [OperandMeant(a), OperandMeant(b)]
  {
    hide ArgumentToken, OperandMeant;
    OneArgument(b);
    assert [a, b][1..] == [b];
  }

  /** Behind a statement at most its end of line is left. */
  ghost predicate ReadsAs(s: Statement, rest: seq<Token>)
    requires StatementOk(s)
  {
    var p := LineFrom(StatementTokens(s) + rest);
    && p.result == Ok(LineMeant(s)) && (p.rest == rest || p.rest == [EOL_TOKEN] + rest)
    && p.size == StatementSize(s)
  }

  lemma ReadCommand(opcode: nat, arguments: seq<Argument>, rest: seq<Token>)
    requires StatementOk(Command(opcode, arguments))
    ensures ReadsAs(Command(opcode, arguments), rest)
  {
    hide LineFrom, OperandsFrom, ArgumentTokens, OpcodeName, OperandsMeant;
    var ts := ArgumentTokens(arguments) + ([EOL_TOKEN] + rest);
    assert StatementTokens(Command(opcode, arguments)) + rest == [OpcodeToken(opcode)] + ts;
    ReadOpcode(opcode, ts);
    ReadOperands(arguments, rest);
  }

  lemma ReadStatement(s: Statement, rest: seq<Token>)
    requires StatementOk(s)
    ensures ReadsAs(s, rest)
  {
    match s
    case Command(opcode, arguments) => ReadCommand(opcode, arguments, rest);
    case LabelDef(name) =>
      assert (name + ":")[..|name|] == name;
      assert Rest(StatementTokens(s) + rest) == [EOL_TOKEN] + rest;
    case Order(d) =>
      assert Rest(StatementTokens(s) + rest) == [EOL_TOKEN] + rest;
  }

  /**
   Any list of statements, printed to tokens, is parsed back, or exits where the lines
   or the bytes of the arena do not suffice.
   */
  lemma {:induction false} ReadStatements(ss: seq<Statement>, capacity: nat, lines: seq<Line>, free: nat)
    requires (forall s | s in ss :: StatementOk(s)) && |lines| <= capacity
    ensures LinesFrom(ProgramTokens(ss) + [EOF_TOKEN], capacity, lines, free)
         == if |lines| + |ss| <= capacity && StatementsSize(ss) <= free then Ok(lines + LinesMeant(ss)) else ExitOne
    decreases |ss|
  {
    hide LineFrom, LinesFrom, StatementTokens, StatementOk, StatementSize, LineMeant;
    hide ProgramTokens, StatementsSize, LinesMeant;
    ProgramSteps(ss, lines);
    if ss == [] {
      LinesUnfold([EOF_TOKEN], capacity, lines, free);
    } else {
      var s, rest := ss[0], ProgramTokens(ss[1..]) + [EOF_TOKEN];
      StatementRead(s, rest, capacity, lines, free);
      if |lines| < capacity && StatementSize(s) <= free {
        ReadStatements(ss[1..], capacity, lines + [LineMeant(s)], free - StatementSize(s));
      }
    }
  }

  /** The tokens, the lines and the size of a program, by its first statement. */
  lemma ProgramSteps(ss: seq<Statement>, lines: seq<Line>)
    requires forall s | s in ss :: StatementOk(s)
    ensures if ss == [] then
              && ProgramTokens(ss) + [EOF_TOKEN] == [EOF_TOKEN]
              && lines + LinesMeant(ss) == lines && StatementsSize(ss) == 0
            else
              && StatementOk(ss[0]) && (forall s | s in ss[1..] :: StatementOk(s))
              && ProgramTokens(ss) + [EOF_TOKEN] == StatementTokens(ss[0]) + (ProgramTokens(ss[1..]) + [EOF_TOKEN])
              && lines + LinesMeant(ss) == lines + [LineMeant(ss[0])] + LinesMeant(ss[1..])
              && StatementsSize(ss) == StatementSize(ss[0]) + StatementsSize(ss[1..])
  {
    hide StatementTokens, StatementOk, StatementSize, LineMeant;
  }

  /** The loop reads one statement, and goes on behind it. */
  lemma StatementRead(s: Statement, rest: seq<Token>, capacity: nat, lines: seq<Line>, free: nat)
    requires StatementOk(s) && |lines| <= capacity
    ensures LinesFrom(StatementTokens(s) + rest, capacity, lines, free)
         == if |lines| < capacity && StatementSize(s) <= free then
              LinesFrom(rest, capacity, lines + [LineMeant(s)], free - StatementSize(s))
            else ExitOne
  {
    hide LineFrom, LinesFrom, StatementTokens, StatementOk, StatementSize, LineMeant;
    ReadStatement(s, rest);
    StatementStarts(s, rest);
    LinesUnfold(StatementTokens(s) + rest, capacity, lines, free);
    if |lines| < capacity && StatementSize(s) <= free {
      LinesUnfold([EOL_TOKEN] + rest, capacity, lines + [LineMeant(s)], free - StatementSize(s));
      assert ([EOL_TOKEN] + rest)[1..] == rest;
    }
  }

  lemma StatementStarts(s: Statement, rest: seq<Token>)
    requires StatementOk(s)
    ensures StatementTokens(s) != [] && (StatementTokens(s) + rest)[0].kind !in {Separator, Eof}
  {
  }
}
