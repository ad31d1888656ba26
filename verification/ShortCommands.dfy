/**
 Commands that lack operands: the parser takes the words behind the end of line for
 them, and reads on with what those leave.
 */
module ShortCommands {
  import opened Arena
  import opened OperandTheorems
  import opened Tokens
  import opened TokenStreams
  import opened Parser
  import opened ParserTheorems
  import VmCore

  // ---- the words a short command takes ----

  /** The operands that follow the first word of a statement. */
  function ArgumentsOf(s: Statement): seq<Argument> {
    if s.Command? then s.arguments else []
  }

  predicate AllOk(ss: seq<Statement>) {
    forall s | s in ss :: StatementOk(s)
  }

  lemma TailOk(ss: seq<Statement>)
    requires AllOk(ss) && ss != []
    ensures StatementOk(ss[0]) && AllOk(ss[1..])
  {
    assert ss[0] in ss && forall s | s in ss[1..] :: s in ss;
  }

  /** The tokens of a program with TOK_EOF. */
  function File(ss: seq<Statement>): seq<Token>
    requires AllOk(ss)
  {
    ProgramTokens(ss) + [EOF_TOKEN]
  }

  /** What a missing operand becomes: the first word of what follows. */
  function Taken(ss: seq<Statement>): Outcome<Operand> {
    if ss == [] then Ok(Int(0)) else
      match ss[0]
      case LabelDef(name) => Ok(Symbol(name + ":"))
      case Command(opcode, _) => if opcode < |OPCODES| then Ok(Symbol(OpcodeName(opcode))) else Failed
      case Order(d) => if d == 0 then Ok(Int(0)) else if d == 2 then Crash else Failed
  }

  /** The tokens behind that word. */
  function Left(ss: seq<Statement>): seq<Token>
    requires AllOk(ss)
  {
    if ss == [] then []
    else
      TailOk(ss);
      ArgumentTokens(ArgumentsOf(ss[0])) + ([EOL_TOKEN] + File(ss[1..]))
  }

  /**
   A directive in operand position is taken for a literal by its number: .start is
   the integer 0, .rodata copies from a null pointer, all others are refused.
   */
  lemma DirectiveAsOperand(d: nat, rest: seq<Token>)
    ensures var p := OperandFrom([Token(Directive, d, 0, "")] + rest);
            && p.result == (if d == 0 then Ok(Int(0)) else if d == 2 then Crash else Failed)
            && p.size == 0 && (d == 0 ==> p.rest == rest)
  {
    StepOver(Token(Directive, d, 0, ""), rest);
  }

  lemma NameAsOperand(name: string, rest: seq<Token>)
    ensures OperandFrom([Token(Identifier, 0, 0, name)] + rest) == Parsed(Ok(Symbol(name)), rest, 0)
  {
    StepOver(Token(Identifier, 0, 0, name), rest);
  }

  lemma EofAsOperand()
    ensures OperandFrom([EOF_TOKEN]) == Parsed(Ok(Int(0)), [], 0)
  {
    assert [EOF_TOKEN] == [EOF_TOKEN] + [];
    StepOver(EOF_TOKEN, []);
  }

  /** The token a statement starts with. */
  function Head(s: Statement): Token
    requires StatementOk(s)
  {
    match s
    case LabelDef(name) => Token(Identifier, 0, 0, name + ":")
    case Command(opcode, _) => OpcodeToken(opcode)
    case Order(d) => Token(Directive, d, 0, "")
  }

  lemma StatementSplits(s: Statement)
    requires StatementOk(s)
    ensures StatementTokens(s) == [Head(s)] + (ArgumentTokens(ArgumentsOf(s)) + [EOL_TOKEN])
    ensures Head(s).kind != Separator
  {
    hide OpcodeName;
    if !s.Command? {
      NoArguments();
    }
  }

  lemma FileSplits(ss: seq<Statement>)
    requires AllOk(ss)
    ensures if ss == [] then File(ss) == [EOF_TOKEN]
            else StatementOk(ss[0]) && File(ss) == [Head(ss[0])] + Left(ss)
    ensures File(ss) != [] && File(ss)[0].kind != Separator
  {
    hide StatementTokens, Head, ArgumentTokens;
    if ss != [] {
      TailOk(ss);
      StatementSplits(ss[0]);
      var arguments, rest := ArgumentTokens(ArgumentsOf(ss[0])), File(ss[1..]);
      assert File(ss) == StatementTokens(ss[0]) + rest;
      assert [Head(ss[0])] + (arguments + [EOL_TOKEN]) + rest == [Head(ss[0])] + (arguments + ([EOL_TOKEN] + rest));
    }
  }

  lemma TakenFrom(ss: seq<Statement>)
    requires AllOk(ss)
    ensures var p := OperandFrom(File(ss));
            p.result == Taken(ss) && p.size == 0 && (p.result.Ok? ==> p.rest == Left(ss))
  {
    hide OpcodeName, OperandFrom, File;
    FileSplits(ss);
    if ss == [] {
      EofAsOperand();
    } else {
      match ss[0]
      case LabelDef(name) => NameAsOperand(name + ":", Left(ss));
      case Command(opcode, _) => NameAsOperand(OpcodeName(opcode), Left(ss));
      case Order(d) => DirectiveAsOperand(d, Left(ss));
    }
  }

  // ---- one operand missing ----

  predicate Short(opcode: nat, arguments: seq<Argument>) {
    opcode < |OPCODES| && |arguments| + 1 == VmCore.OperandCount(opcode) && ArgumentsOk(arguments)
  }

  /** A trailing comment keeps the end of line from being stored. */
  function End(ended: bool): seq<Token> {
    if ended then [EOL_TOKEN] else []
  }

  function CommandTokens(opcode: nat, arguments: seq<Argument>, ended: bool): seq<Token>
    requires opcode < |OPCODES|
  {
    [OpcodeToken(opcode)] + ArgumentTokens(arguments) + End(ended)
  }

  lemma SkipEnd(ended: bool, ts: seq<Token>)
    requires ended || First(ts).kind != Separator
    ensures SkipSeparator(End(ended) + ts) == ts
  {
    StepOver(EOL_TOKEN, ts);
    assert [] + ts == ts;
  }

  /** The operands before, completed by the one the parser makes of what follows. */
  function Completed(before: seq<Operand>, last: Parsed<Operand>): Parsed<seq<Operand>> {
    match last.result
    case Ok(x) => Parsed(Ok(before + [x]), if before == [] then SkipSeparator(last.rest) else last.rest, last.size)
    case Failed => Parsed(Failed, last.rest, last.size)
    case ExitOne => Parsed(ExitOne, last.rest, last.size)
    case Crash => Parsed(Crash, last.rest, last.size)
  }

  lemma FirstMissing(ts: seq<Token>)
    ensures OperandsFrom(ts, 1) == Completed([], OperandFrom(ts))
  {
    hide OperandFrom, SkipSeparator;
    var o := OperandFrom(ts);
    assert o.result.Ok? ==> [] + [o.result.value] == [o.result.value];
  }

  lemma SecondMissing(a: Argument, ended: bool, ts: seq<Token>)
    requires ArgumentOk(a) && (ended || First(ts).kind != Separator)
    ensures OperandsFrom(SkipSeparator([ArgumentToken(a)] + (End(ended) + ts)), 2)
         == Completed([OperandMeant(a)], OperandFrom(ts))
  {
    hide OperandFrom, SkipSeparator, Rest, First, ArgumentOk, End;
    var end := End(ended) + ts;
    ReadArgument(a, [ArgumentToken(a)] + end, end);
    SkipEnd(ended, ts);
    var o := OperandFrom(ts);
    assert o.result.Ok? ==> [OperandMeant(a)] + [o.result.value] == [OperandMeant(a), o.result.value];
  }

  /** The line of a short command is read with the operand behind its end of line. */
  lemma ReadShort(opcode: nat, arguments: seq<Argument>, ended: bool, ts: seq<Token>)
    requires Short(opcode, arguments) && (ended || First(ts).kind != Separator)
    ensures var p := LineFrom(CommandTokens(opcode, arguments, ended) + ts);
            var o := Completed(OperandsMeant(arguments), OperandFrom(ts));
            && p.rest == o.rest && p.size == CopySize(OpcodeName(opcode)) + o.size
            && p.result == match o.result
                           case Ok(operands) => Ok(Instr(Instruction(opcode, operands)))
                           case Failed => Failed
                           case ExitOne => ExitOne
                           case Crash => Crash
  {
    hide LineFrom, OperandFrom, OperandsFrom, Completed, SkipSeparator, OpcodeName;
    hide ArgumentOk, ArgumentsOk, ArgumentTokens, OperandsMeant, OperandMeant, End;
    var end := End(ended) + ts;
    var behind := ArgumentTokens(arguments) + end;
    assert CommandTokens(opcode, arguments, ended) + ts == [OpcodeToken(opcode)] + behind;
    ReadOpcode(opcode, behind);
    ArgumentList(arguments);
    if |arguments| == 0 {
      assert behind == end;
      SkipEnd(ended, ts);
      FirstMissing(ts);
    } else {
      assert behind == [ArgumentToken(arguments[0])] + end;
      SecondMissing(arguments[0], ended, ts);
    }
  }

  /**
   Every command whose last operand is missing, before any printed program: parse_line refuses
   it exactly before a directive other than .start and .rodata, reads from a null pointer
   exactly before .rodata, and otherwise makes a line of it with the first word that follows.
   */
  lemma ShortCommand(opcode: nat, arguments: seq<Argument>, ended: bool, ss: seq<Statement>)
    requires Short(opcode, arguments) && AllOk(ss)
    ensures var r := LineFrom(CommandTokens(opcode, arguments, ended) + File(ss)).result;
            && (r == Failed <==> ss != [] && ss[0].Order? && ss[0].directive != 0 && ss[0].directive != 2)
            && (r == Crash <==> ss != [] && ss[0] == Order(2))
            && (r.Ok? ==> Taken(ss).Ok?
                          && r.value == Instr(Instruction(opcode, OperandsMeant(arguments) + [Taken(ss).value])))
            && r != ExitOne
  {
    hide LineFrom, OperandFrom, File, CommandTokens, SkipSeparator;
    FileSplits(ss);
    ReadShort(opcode, arguments, ended, File(ss));
    TakenFrom(ss);
  }

  lemma BlankLinesAsOperand(n: nat, ts: seq<Token>)
    requires ts != [] && ts[0].kind != Separator
    ensures var more := BlankLines(n) + ts;
            if n <= 1 then OperandFrom(more) == OperandFrom(ts)
            else OperandFrom(more).result == Failed && OperandFrom(more).size == 0
  {
    hide OperandFrom, BlankLines;
    BlankUnfold(n, ts);
    if n > 0 {
      BlankUnfold(n - 1, ts);
      EndAsOperand(BlankLines(n - 1) + ts);
      if n > 1 {
        EndsAsOperand(BlankLines(n - 2) + ts);
      }
    }
  }

  lemma BlankUnfold(n: nat, ts: seq<Token>)
    ensures BlankLines(n) + ts == if n == 0 then ts else [EOL_TOKEN] + (BlankLines(n - 1) + ts)
  {
  }

  lemma EndAsOperand(ts: seq<Token>)
    ensures ts != [] && ts[0].kind != Separator ==> OperandFrom([EOL_TOKEN] + ts) == OperandFrom(ts)
  {
    StepOver(EOL_TOKEN, ts);
  }

  /** The second of two ends of line is no operand: it is taken for a character of value 0. */
  lemma EndsAsOperand(rest: seq<Token>)
    ensures var p := OperandFrom([EOL_TOKEN] + ([EOL_TOKEN] + rest));
            p.result == Failed && p.size == 0
  {
    StepOver(EOL_TOKEN, [EOL_TOKEN] + rest);
    StepOver(EOL_TOKEN, rest);
  }

  /** One blank line behind a short command changes nothing; with two or more the command is refused. */
  lemma BlankLinesBehind(opcode: nat, arguments: seq<Argument>, n: nat, ts: seq<Token>)
    requires Short(opcode, arguments) && ts != [] && ts[0].kind != Separator
    ensures var p := LineFrom(CommandTokens(opcode, arguments, true) + (BlankLines(n) + ts));
            if n <= 1 then p == LineFrom(CommandTokens(opcode, arguments, true) + ts)
            else p.result == Failed && p.size == CopySize(OpcodeName(opcode))
  {
    hide LineFrom, OperandFrom, CommandTokens, OperandsMeant, OpcodeName, BlankLines, Short;
    ReadShort(opcode, arguments, true, BlankLines(n) + ts);
    ReadShort(opcode, arguments, true, ts);
    BlankLinesAsOperand(n, ts);
  }

  // ---- what becomes of the program ----

  /** Reading a well-formed program from here on: it is read back, or lines or bytes run out. */
  function ReadBack(ss: seq<Statement>, capacity: nat, lines: seq<Line>, free: nat): Outcome<seq<Line>>
    requires AllOk(ss)
  {
    if |lines| + |ss| <= capacity && StatementsSize(ss) <= free then Ok(lines + LinesMeant(ss)) else ExitOne
  }

  /** What parse_line takes a name for that stands where a line should start. */
  datatype Word = Empty | Idles | Defines(name: string) | Starts(opcode: nat)

  function WordOf(name: string): (w: Word)
    ensures w.Starts? ==> w.opcode < |OPCODES| && OpcodeName(w.opcode) == name
  {
    if name == "" then Empty
    else if IsLabel(name) then Defines(name[..|name| - 1])
    else if IsOpcode(name) then Starts(OpcodeLookup(name))
    else Idles
  }

  /**
   Operands that stand where a line should start, before `ss`: the parser spins on a register,
   or on a name that means nothing, until it exits; it refuses a number; and a name that is a
   label or an opcode starts a line of its own.
   */
  function Stranded(arguments: seq<Argument>, ss: seq<Statement>, capacity: nat, lines: seq<Line>, free: nat)
    : Outcome<seq<Line>>
    requires AllOk(ss) && |lines| <= capacity && arguments != []
    decreases |ss|, |arguments|, 0
  {
    var full := |lines| == capacity;
    match arguments[0]
    case Register(_) => ExitOne
    case Number(_) => if full then ExitOne else Failed
    case Name(name) =>
      match WordOf(name)
      case Idles => ExitOne
      case Empty => if full then ExitOne else Crash
      case Defines(place) =>
        if full || CopySize(place) > free || |arguments| > 1 then ExitOne
        else ReadBack(ss, capacity, lines + [Label(place)], free - CopySize(place))
      case Starts(opcode) => CommandOutcome(opcode, arguments[1..], ss, capacity, lines, free)
  }

  /** Reading on behind the first word of `ss`, which was taken for an operand. */
  function After(ss: seq<Statement>, capacity: nat, lines: seq<Line>, free: nat): Outcome<seq<Line>>
    requires AllOk(ss) && |lines| <= capacity
    decreases |ss|, 0, 0
  {
    if ss == [] then Ok(lines)
    else
      TailOk(ss);
      if ArgumentsOf(ss[0]) == [] then ReadBack(ss[1..], capacity, lines, free)
      else Stranded(ArgumentsOf(ss[0]), ss[1..], capacity, lines, free)
  }

  /**
   What parse_program makes of a command with any operands, right or wrong in number,
   before a well-formed program.
   */
  function CommandOutcome(opcode: nat, arguments: seq<Argument>, ss: seq<Statement>,
                          capacity: nat, lines: seq<Line>, free: nat): Outcome<seq<Line>>
    requires opcode < |OPCODES| && AllOk(ss) && |lines| <= capacity
    decreases |ss|, |arguments|, 1
  {
    var count, size := VmCore.OperandCount(opcode), CopySize(OpcodeName(opcode));
    if |lines| == capacity || size > free then ExitOne
    else if |arguments| >= count then
      var lines', surplus := lines + [CommandLine(opcode, OperandsMeant(arguments[..count]))], arguments[count..];
      if surplus == [] then ReadBack(ss, capacity, lines', free - size)
      else if count == 2 then ExitOne
      else Stranded(surplus, ss, capacity, lines', free - size)
    else
      match Taken(ss)
      case Failed => Failed
      case Crash => Crash
      case ExitOne => ExitOne
      case Ok(x) =>
        if |arguments| + 1 == count then
          After(ss, capacity, lines + [CommandLine(opcode, OperandsMeant(arguments) + [x])], free - size)
        else
          TwoTaken(opcode, x, ss, capacity, lines, free - size)
  }

  function CommandLine(opcode: nat, operands: seq<Operand>): (r: Line)
    ensures r != Blank
  {
    Instr(Instruction(opcode, operands))
  }

  /** Both operands are missing: the second one is the word behind `x`, the first of `ss`. */
  function TwoTaken(opcode: nat, x: Operand, ss: seq<Statement>, capacity: nat, lines: seq<Line>, free: nat)
    : Outcome<seq<Line>>
    requires AllOk(ss) && |lines| < capacity
    decreases |ss|, 0, 0
  {
    if ss == [] then Failed
    else
      TailOk(ss);
      var arguments, rest := ArgumentsOf(ss[0]), ss[1..];
      if arguments == [] then
        match Taken(rest)
        case Failed => Failed
        case Crash => Crash
        case ExitOne => ExitOne
        case Ok(y) => After(rest, capacity, lines + [CommandLine(opcode, [x, y])], free)
      else if |arguments| == 1 then
        ReadBack(rest, capacity, lines + [CommandLine(opcode, [x, OperandMeant(arguments[0])])], free)
      else ExitOne
  }

  // the tokens of operands, the rest of their line and what follows

  function StrandedTokens(arguments: seq<Argument>, ended: bool, ss: seq<Statement>): seq<Token>
    requires AllOk(ss)
  {
    ArgumentTokens(arguments) + (End(ended) + File(ss))
  }

  /** What is behind the first of the operands. */
  function Behind(arguments: seq<Argument>, ended: bool, ss: seq<Statement>): seq<Token>
    requires AllOk(ss) && arguments != []
  {
    if |arguments| == 1 then End(ended) + File(ss) else [COMMA_TOKEN] + StrandedTokens(arguments[1..], ended, ss)
  }

  lemma StrandedSplits(arguments: seq<Argument>, ended: bool, ss: seq<Statement>)
    requires AllOk(ss) && arguments != []
    ensures StrandedTokens(arguments, ended, ss) == [ArgumentToken(arguments[0])] + Behind(arguments, ended, ss)
    ensures SkipSeparator(StrandedTokens(arguments, ended, ss)) == StrandedTokens(arguments, ended, ss)
  {
    hide File, End, ArgumentToken, ArgumentTokens, SkipSeparator;
    var head, more, end := ArgumentToken(arguments[0]), ArgumentTokens(arguments[1..]), End(ended) + File(ss);
    ArgumentsSplit(arguments);
    Regroup([head], [COMMA_TOKEN], more, end);
    NoSeparator(arguments[0], Behind(arguments, ended, ss));
  }

  lemma Regroup(a: seq<Token>, b: seq<Token>, c: seq<Token>, d: seq<Token>)
    ensures (a + (b + c)) + d == a + (b + (c + d))
  {
  }

  lemma ArgumentsSplit(arguments: seq<Argument>)
    requires arguments != []
    ensures ArgumentTokens(arguments)
         == if |arguments| == 1 then [ArgumentToken(arguments[0])]
            else [ArgumentToken(arguments[0])] + ([COMMA_TOKEN] + ArgumentTokens(arguments[1..]))
  {
    hide ArgumentToken;
  }

  lemma NoSeparator(a: Argument, rest: seq<Token>)
    ensures SkipSeparator([ArgumentToken(a)] + rest) == [ArgumentToken(a)] + rest
  {
    StepOver(ArgumentToken(a), rest);
  }

  lemma NoneStranded(ended: bool, ss: seq<Statement>)
    requires AllOk(ss)
    ensures StrandedTokens([], ended, ss) == End(ended) + File(ss)
    ensures SkipSeparator(End(ended) + File(ss)) == File(ss)
  {
    hide File, End;
    NoArguments();
    FileSplits(ss);
    SkipEnd(ended, File(ss));
  }

  /** Skipping a separator behind an operand leads to the next one, or behind the end of line. */
  lemma SkipBehind(arguments: seq<Argument>, ended: bool, ss: seq<Statement>)
    requires AllOk(ss) && arguments != []
    ensures SkipSeparator(Behind(arguments, ended, ss))
         == if |arguments| == 1 then File(ss) else StrandedTokens(arguments[1..], ended, ss)
  {
    hide File, End, StrandedTokens, SkipSeparator;
    if |arguments| == 1 {
      NoneStranded(ended, ss);
    } else {
      StepOver(COMMA_TOKEN, StrandedTokens(arguments[1..], ended, ss));
    }
  }

  lemma OperandStranded(arguments: seq<Argument>, ended: bool, ss: seq<Statement>)
    requires AllOk(ss) && arguments != [] && ArgumentsOk(arguments)
    ensures OperandFrom(StrandedTokens(arguments, ended, ss))
         == Parsed(Ok(OperandMeant(arguments[0])), Behind(arguments, ended, ss), 0)
  {
    hide OperandFrom, Behind, StrandedTokens, ArgumentToken, OperandMeant, ArgumentOk;
    assert arguments[0] in arguments;
    StrandedSplits(arguments, ended, ss);
    ReadArgument(arguments[0], StrandedTokens(arguments, ended, ss), Behind(arguments, ended, ss));
  }

  lemma OperandsTail(arguments: seq<Argument>)
    requires ArgumentsOk(arguments) && arguments != []
    ensures ArgumentOk(arguments[0]) && ArgumentsOk(arguments[1..])
  {
    hide ArgumentOk;
    assert arguments[0] in arguments && forall a | a in arguments[1..] :: a in arguments;
  }

  // what follows a command that has its operands

  /** The tokens a command leaves that has at least the operands it needs. */
  function Surplus(count: nat, arguments: seq<Argument>, ended: bool, ss: seq<Statement>): seq<Token>
    requires AllOk(ss) && count <= |arguments|
  {
    if count == 2 then Behind(arguments[1..], ended, ss)
    else if count == |arguments| then File(ss)
    else StrandedTokens(arguments[count..], ended, ss)
  }

  lemma ReadEnough(count: nat, arguments: seq<Argument>, ended: bool, ss: seq<Statement>)
    requires AllOk(ss) && ArgumentsOk(arguments) && count <= 2 && count <= |arguments|
    ensures OperandsFrom(SkipSeparator(StrandedTokens(arguments, ended, ss)), count)
         == Parsed(Ok(OperandsMeant(arguments[..count])), Surplus(count, arguments, ended, ss), 0)
  {
    hide OperandFrom, SkipSeparator, Behind, StrandedTokens, File, OperandMeant, ArgumentOk, ArgumentsOk;
    if arguments == [] {
      NoneStranded(ended, ss);
    } else {
      var a, more := arguments[0], arguments[1..];
      StrandedSplits(arguments, ended, ss);
      OperandStranded(arguments, ended, ss);
      SkipBehind(arguments, ended, ss);
      OperandsTail(arguments);
      OneArgument(a);
      if count == 1 {
        assert arguments[..1] == [a];
      } else if count == 2 {
        OperandStranded(more, ended, ss);
        TwoArguments(a, more[0]);
        assert arguments[..2] == [a, more[0]];
      }
    }
  }

  lemma EnoughOperands(opcode: nat, arguments: seq<Argument>, ended: bool, ss: seq<Statement>)
    requires opcode < |OPCODES| && AllOk(ss) && ArgumentsOk(arguments) && VmCore.OperandCount(opcode) <= |arguments|
    ensures var count := VmCore.OperandCount(opcode);
            LineFrom([OpcodeToken(opcode)] + StrandedTokens(arguments, ended, ss)) ==
            Parsed(Ok(CommandLine(opcode, OperandsMeant(arguments[..count]))), Surplus(count, arguments, ended, ss),
                   CopySize(OpcodeName(opcode)))
  {
    hide LineFrom, OperandsFrom, SkipSeparator, StrandedTokens, Surplus, OpcodeName, OperandsMeant;
    ReadOpcode(opcode, StrandedTokens(arguments, ended, ss));
    ReadEnough(VmCore.OperandCount(opcode), arguments, ended, ss);
  }

  // lines

  lemma EndOfLine(ended: bool, ss: seq<Statement>, capacity: nat, lines: seq<Line>, free: nat)
    requires AllOk(ss) && |lines| <= capacity
    ensures LinesFrom(File(ss), capacity, lines, free) == ReadBack(ss, capacity, lines, free)
    ensures LinesFrom(End(ended) + File(ss), capacity, lines, free) == ReadBack(ss, capacity, lines, free)
  {
    hide LineFrom, LinesFrom, LinesMeant, StatementsSize;
    ReadStatements(ss, capacity, lines, free);
    LinesUnfold([EOL_TOKEN] + File(ss), capacity, lines, free);
    assert ([EOL_TOKEN] + File(ss))[1..] == File(ss) && [] + File(ss) == File(ss);
  }

  lemma StrandedName(name: string, rest: seq<Token>, capacity: nat, lines: seq<Line>, free: nat)
    requires |lines| <= capacity && !WordOf(name).Starts?
    ensures var full := |lines| == capacity;
            LinesFrom([Token(Identifier, 0, 0, name)] + rest, capacity, lines, free) ==
            match WordOf(name)
            case Empty => if full then ExitOne else Crash
            case Defines(place) =>
              if full || CopySize(place) > free then ExitOne
              else LinesFrom(rest, capacity, lines + [Label(place)], free - CopySize(place))
            case _ => ExitOne
  {
    hide IsOpcode, LinesFrom, InstructionFrom;
    var ts := [Token(Identifier, 0, 0, name)] + rest;
    assert ts[1..] == rest;
    LinesUnfold(ts, capacity, lines, free);
    if WordOf(name).Idles? {
      IdleTokensExit(ts, capacity, lines, free);
    }
  }

  lemma CommaExits(rest: seq<Token>, capacity: nat, lines: seq<Line>, free: nat)
    requires |lines| <= capacity
    ensures LinesFrom([COMMA_TOKEN] + rest, capacity, lines, free) == ExitOne
  {
    IdleTokensExit([COMMA_TOKEN] + rest, capacity, lines, free);
  }

  lemma NumberRefused(ts: seq<Token>, capacity: nat, lines: seq<Line>, free: nat)
    requires ts != [] && ts[0].kind == Literal && |lines| <= capacity
    ensures LinesFrom(ts, capacity, lines, free) == if |lines| == capacity then ExitOne else Failed
  {
    LinesUnfold(ts, capacity, lines, free);
  }

  /** Whether a comma follows an opcode or not is all the same. */
  lemma CommaBehindOpcode(opcode: nat, arguments: seq<Argument>, ended: bool, ss: seq<Statement>,
                          capacity: nat, lines: seq<Line>, free: nat)
    requires opcode < |OPCODES| && arguments != [] && AllOk(ss) && |lines| <= capacity
    ensures var ts := StrandedTokens(arguments, ended, ss);
            LinesFrom([OpcodeToken(opcode)] + ([COMMA_TOKEN] + ts), capacity, lines, free) ==
            LinesFrom([OpcodeToken(opcode)] + ts, capacity, lines, free)
  {
    hide LinesFrom, LineFrom, OperandsFrom, OpcodeName, StrandedTokens, SkipSeparator;
    var ts := StrandedTokens(arguments, ended, ss);
    StepOver(COMMA_TOKEN, ts);
    StrandedSplits(arguments, ended, ss);
    ReadOpcode(opcode, [COMMA_TOKEN] + ts);
    ReadOpcode(opcode, ts);
    LinesUnfold([OpcodeToken(opcode)] + ([COMMA_TOKEN] + ts), capacity, lines, free);
    LinesUnfold([OpcodeToken(opcode)] + ts, capacity, lines, free);
  }

  lemma {:induction false} StrandedOperands(arguments: seq<Argument>, ended: bool, ss: seq<Statement>,
                                            capacity: nat, lines: seq<Line>, free: nat)
    requires AllOk(ss) && ArgumentsOk(arguments) && |lines| <= capacity && arguments != []
    ensures LinesFrom(StrandedTokens(arguments, ended, ss), capacity, lines, free)
         == Stranded(arguments, ss, capacity, lines, free)
    decreases |ss|, |arguments|, 0
  {
    hide LinesFrom, LineFrom, StrandedTokens, ReadBack, File, WordOf, CommandOutcome, OpcodeName, End;
    StrandedSplits(arguments, ended, ss);
    OperandsTail(arguments);
    var ts, rest := StrandedTokens(arguments, ended, ss), Behind(arguments, ended, ss);
    match arguments[0]
    case Register(_) => IdleTokensExit(ts, capacity, lines, free);
    case Number(_) => NumberRefused(ts, capacity, lines, free);
    case Name(name) =>
      match WordOf(name) {
        case Starts(opcode) =>
          if |arguments| > 1 {
            CommaBehindOpcode(opcode, arguments[1..], ended, ss, capacity, lines, free);
          } else {
            NoneStranded(ended, ss);
          }
          CommandRead(opcode, arguments[1..], ended, ss, capacity, lines, free);
        case Defines(place) =>
          StrandedName(name, rest, capacity, lines, free);
          if |lines| < capacity && CopySize(place) <= free {
            EndOfLine(ended, ss, capacity, lines + [Label(place)], free - CopySize(place));
            if |arguments| > 1 {
              CommaExits(StrandedTokens(arguments[1..], ended, ss), capacity, lines + [Label(place)],
                         free - CopySize(place));
            }
          }
        case _ => StrandedName(name, rest, capacity, lines, free);
      }
  }

  lemma LeftSplits(ss: seq<Statement>)
    requires AllOk(ss) && ss != []
    ensures AllOk(ss[1..]) && Left(ss) == StrandedTokens(ArgumentsOf(ss[0]), true, ss[1..])
    ensures ArgumentsOk(ArgumentsOf(ss[0]))
  {
    hide ArgumentTokens, File;
    TailOk(ss);
  }

  lemma {:induction false} ReadAfter(ss: seq<Statement>, capacity: nat, lines: seq<Line>, free: nat)
    requires AllOk(ss) && |lines| <= capacity
    ensures LinesFrom(Left(ss), capacity, lines, free) == After(ss, capacity, lines, free)
    ensures LinesFrom(SkipSeparator(Left(ss)), capacity, lines, free) == After(ss, capacity, lines, free)
    decreases |ss|, 0, 0
  {
    hide LinesFrom, LineFrom, Stranded, ReadBack, File, StrandedTokens, End;
    if ss == [] {
      LinesUnfold([], capacity, lines, free);
    } else {
      LeftSplits(ss);
      var arguments, rest := ArgumentsOf(ss[0]), ss[1..];
      if arguments == [] {
        NoneStranded(true, rest);
        EndOfLine(true, rest, capacity, lines, free);
      } else {
        StrandedSplits(arguments, true, rest);
        StrandedOperands(arguments, true, rest, capacity, lines, free);
      }
    }
  }

  lemma {:induction false} SurplusRead(count: nat, arguments: seq<Argument>, ended: bool, ss: seq<Statement>,
                                       capacity: nat, lines: seq<Line>, free: nat)
    requires AllOk(ss) && ArgumentsOk(arguments) && count <= 2 && count <= |arguments| && |lines| <= capacity
    ensures LinesFrom(Surplus(count, arguments, ended, ss), capacity, lines, free) ==
            if |arguments| == count then ReadBack(ss, capacity, lines, free)
            else if count == 2 then ExitOne
            else Stranded(arguments[count..], ss, capacity, lines, free)
    decreases |ss|, |arguments|, 1
  {
    hide LinesFrom, LineFrom, StrandedTokens, ReadBack, File, Stranded, End;
    EndOfLine(ended, ss, capacity, lines, free);
    if |arguments| > count {
      if count == 2 {
        CommaExits(StrandedTokens(arguments[1..][1..], ended, ss), capacity, lines, free);
      } else {
        if count == 1 {
          OperandsTail(arguments);
        }
        assert arguments[0..] == arguments;
        StrandedOperands(arguments[count..], ended, ss, capacity, lines, free);
      }
    }
  }

  /** The line of a command without operands that needs two. */
  lemma BothMissing(opcode: nat, ended: bool, ss: seq<Statement>)
    requires opcode < |OPCODES| && VmCore.OperandCount(opcode) == 2 && AllOk(ss)
    ensures var p := LineFrom([OpcodeToken(opcode)] + (End(ended) + File(ss)));
            && p.size == CopySize(OpcodeName(opcode))
            && match Taken(ss)
               case Failed => p.result == Failed
               case Crash => p.result == Crash
               case ExitOne => false
               case Ok(x) => SecondTaken(opcode, x, ss, p)
  {
    hide LineFrom, OperandFrom, OpcodeName, File, End, Left, SkipSeparator;
    NoneStranded(ended, ss);
    ReadOpcode(opcode, End(ended) + File(ss));
    TakenFrom(ss);
    if Taken(ss).Ok? {
      SecondFrom(ss);
    }
  }

  /** The operand read behind the first word of `ss`. */
  lemma SecondFrom(ss: seq<Statement>)
    requires AllOk(ss)
    ensures var p := OperandFrom(SkipSeparator(Left(ss)));
            && p.size == 0
            && if ss == [] then p.result == Failed
               else
                 var arguments := ArgumentsOf(ss[0]);
                 AllOk(ss[1..]) &&
                 if arguments == [] then p.result == Taken(ss[1..]) && (p.result.Ok? ==> p.rest == Left(ss[1..]))
                 else p.result == Ok(OperandMeant(arguments[0])) && p.rest == Behind(arguments, true, ss[1..])
  {
    hide LineFrom, OpcodeName, File, End, SkipSeparator, StrandedTokens, Behind;
    if ss == [] {
      NothingTaken();
    } else {
      hide Left, OperandFrom;
      LeftSplits(ss);
      var arguments, rest := ArgumentsOf(ss[0]), ss[1..];
      if arguments == [] {
        NoneStranded(true, rest);
        TakenFrom(rest);
      } else {
        StrandedSplits(arguments, true, rest);
        OperandStranded(arguments, true, rest);
      }
    }
  }

  lemma NothingTaken()
    ensures OperandFrom(SkipSeparator([])) == Parsed(Failed, [], 0)
  {
  }

  /** `p` is the line with the word `x` of `ss` and the word behind it. */
  ghost predicate SecondTaken(opcode: nat, x: Operand, ss: seq<Statement>, p: Parsed<Line>)
    requires AllOk(ss)
  {
    if ss == [] then p.result == Failed
    else
      TailOk(ss);
      var arguments, rest := ArgumentsOf(ss[0]), ss[1..];
      if arguments == [] then
        match Taken(rest)
        case Failed => p.result == Failed
        case Crash => p.result == Crash
        case ExitOne => false
        case Ok(y) => p.result == Ok(CommandLine(opcode, [x, y])) && p.rest == Left(rest)
      else
        p.result == Ok(CommandLine(opcode, [x, OperandMeant(arguments[0])])) && p.rest == Behind(arguments, true, rest)
  }

  lemma {:induction false} TwoTakenRead(opcode: nat, x: Operand, ss: seq<Statement>, p: Parsed<Line>,
                                        capacity: nat, lines: seq<Line>, free: nat)
    requires AllOk(ss) && |lines| < capacity && SecondTaken(opcode, x, ss, p)
    ensures match p.result
            case Ok(line) =>
              LinesFrom(p.rest, capacity, lines + [line], free) == TwoTaken(opcode, x, ss, capacity, lines, free)
            case Failed => TwoTaken(opcode, x, ss, capacity, lines, free) == Failed
            case Crash => TwoTaken(opcode, x, ss, capacity, lines, free) == Crash
            case ExitOne => false
    decreases |ss|, 0, 0
  {
    hide LinesFrom, StrandedTokens, ReadBack, File, After, End, Left;
    if p.result.Ok? {
      var lines', rest := lines + [p.result.value], ss[1..];
      if ArgumentsOf(ss[0]) == [] {
        ReadAfter(rest, capacity, lines', free);
      } else {
        EndOfLine(true, rest, capacity, lines', free);
        if |ArgumentsOf(ss[0])| > 1 {
          CommaExits(StrandedTokens(ArgumentsOf(ss[0])[1..], true, rest), capacity, lines', free);
        }
      }
    }
  }

  lemma {:induction false} CommandRead(opcode: nat, arguments: seq<Argument>, ended: bool, ss: seq<Statement>,
                                       capacity: nat, lines: seq<Line>, free: nat)
    requires opcode < |OPCODES| && AllOk(ss) && ArgumentsOk(arguments) && |lines| <= capacity
    ensures LinesFrom([OpcodeToken(opcode)] + StrandedTokens(arguments, ended, ss), capacity, lines, free)
         == CommandOutcome(opcode, arguments, ss, capacity, lines, free)
    decreases |ss|, |arguments|, 2
  {
    hide LinesFrom, LineFrom, StrandedTokens, ReadBack, File, OpcodeName, End, Surplus, Stranded, OperandFrom, Taken;
    hide After, TwoTaken, SecondTaken, OperandsMeant, Left, SkipSeparator, ArgumentsOk;
    var ts := [OpcodeToken(opcode)] + StrandedTokens(arguments, ended, ss);
    var count, size := VmCore.OperandCount(opcode), CopySize(OpcodeName(opcode));
    LinesUnfold(ts, capacity, lines, free);
    if |arguments| >= count {
      EnoughOperands(opcode, arguments, ended, ss);
      if |lines| < capacity && size <= free {
        var line := CommandLine(opcode, OperandsMeant(arguments[..count]));
        SurplusRead(count, arguments, ended, ss, capacity, lines + [line], free - size);
      }
    } else if |arguments| + 1 == count {
      FileSplits(ss);
      CommandSplits(opcode, arguments, ended, ss);
      ReadShort(opcode, arguments, ended, File(ss));
      TakenFrom(ss);
      if |lines| < capacity && size <= free && Taken(ss).Ok? {
        var line := CommandLine(opcode, OperandsMeant(arguments) + [Taken(ss).value]);
        ReadAfter(ss, capacity, lines + [line], free - size);
      }
    } else {
      NoneStranded(ended, ss);
      BothMissing(opcode, ended, ss);
      if |lines| < capacity && size <= free && Taken(ss).Ok? {
        TwoTakenRead(opcode, Taken(ss).value, ss, LineFrom(ts), capacity, lines, free - size);
      }
    }
  }

  lemma CommandSplits(opcode: nat, arguments: seq<Argument>, ended: bool, ss: seq<Statement>)
    requires opcode < |OPCODES| && AllOk(ss)
    ensures CommandTokens(opcode, arguments, ended) + File(ss)
         == [OpcodeToken(opcode)] + StrandedTokens(arguments, ended, ss)
  {
    hide ArgumentTokens, File, End, OpcodeName;
  }

  /**
   Every command, whatever the number of its operands and whether or not its end of line
   is stored, before every well-formed program: what becomes of the program.
   */
  lemma AnyCommand(opcode: nat, arguments: seq<Argument>, ended: bool, ss: seq<Statement>,
                   capacity: nat, lines: seq<Line>, free: nat)
    requires opcode < |OPCODES| && AllOk(ss) && ArgumentsOk(arguments) && |lines| <= capacity
    ensures LinesFrom(CommandTokens(opcode, arguments, ended) + File(ss), capacity, lines, free)
         == CommandOutcome(opcode, arguments, ss, capacity, lines, free)
  {
    hide LinesFrom, CommandOutcome, CommandTokens, StrandedTokens;
    CommandSplits(opcode, arguments, ended, ss);
    CommandRead(opcode, arguments, ended, ss, capacity, lines, free);
  }

  /**
   A command whose last operand is missing, by what follows it. At the end of the file, and before a
   label, .start or a command without operands, the program goes on; before a command whose first
   operand is a register or a name that means nothing it exits, whatever the capacity and the arena;
   before one whose first operand is a number, and before directives, it is refused or crashes.
   */
  lemma ShortCommandEnds(opcode: nat, arguments: seq<Argument>, ended: bool, ss: seq<Statement>,
                         capacity: nat, lines: seq<Line>, free: nat)
    requires Short(opcode, arguments) && AllOk(ss) && |lines| <= capacity
    ensures var r := LinesFrom(CommandTokens(opcode, arguments, ended) + File(ss), capacity, lines, free);
            var size, behind := CopySize(OpcodeName(opcode)), if ss == [] then [] else ArgumentsOf(ss[0]);
            var room := |lines| < capacity && size <= free;
            && (!room ==> r == ExitOne)
            && (room && Taken(ss) == Failed ==> r == Failed)
            && (room && Taken(ss) == Crash ==> r == Crash)
            && (room && Taken(ss).Ok? && behind == [] ==>
                  var line := CommandLine(opcode, OperandsMeant(arguments) + [Taken(ss).value]);
                  var rest := if ss == [] then [] else ss[1..];
                  AllOk(rest) && r == ReadBack(rest, capacity, lines + [line], free - size))
            && (behind != [] && behind[0].Register? ==> r == ExitOne)
            && (behind != [] && behind[0].Name? && WordOf(behind[0].symbol) == Idles ==> r == ExitOne)
            && (behind != [] && behind[0].Number? ==>
                  r == if |lines| + 1 < capacity && size <= free then Failed else ExitOne)
  {
    hide LinesFrom, CommandTokens, WordOf, OpcodeName, OperandsMeant, File, StatementOk;
    AnyCommand(opcode, arguments, ended, ss, capacity, lines, free);
    if ss == [] {
      NothingLeft(lines);
    } else {
      TailOk(ss);
      if ArgumentsOf(ss[0]) != [] {
        TakenWord(ss);
      }
      var size := CopySize(OpcodeName(opcode));
      if |lines| < capacity && size <= free && Taken(ss).Ok? {
        var line := CommandLine(opcode, OperandsMeant(arguments) + [Taken(ss).value]);
        AfterForms(ss, capacity, lines + [line], free - size);
      }
    }
  }

  lemma AfterForms(ss: seq<Statement>, capacity: nat, lines: seq<Line>, free: nat)
    requires AllOk(ss) && ss != [] && |lines| <= capacity
    ensures var r, behind := After(ss, capacity, lines, free), ArgumentsOf(ss[0]);
            if behind == [] then AllOk(ss[1..]) && r == ReadBack(ss[1..], capacity, lines, free)
            else
              match behind[0]
              case Register(_) => r == ExitOne
              case Number(_) => r == if |lines| == capacity then ExitOne else Failed
              case Name(name) => WordOf(name) == Idles ==> r == ExitOne
  {
    hide WordOf, StatementOk;
    TailOk(ss);
    var behind := ArgumentsOf(ss[0]);
    assert behind != [] ==> After(ss, capacity, lines, free) == Stranded(behind, ss[1..], capacity, lines, free);
  }

  lemma TakenWord(ss: seq<Statement>)
    requires AllOk(ss) && ss != [] && ArgumentsOf(ss[0]) != []
    ensures Taken(ss).Ok?
  {
    TailOk(ss);
  }

  lemma NothingLeft(lines: seq<Line>)
    ensures forall x: Line :: lines + [x] + LinesMeant([]) == lines + [x]
  {
  }
}
