/** A command short of an operand swallows the next line: `mov r0` before `halt`. */
module ShortCommandExample {
  import opened Arena
  import opened ArenaBounds
  import opened Lexer
  import opened SourceText
  import opened TokenStreams
  import opened Tokens
  import Assembler
  import Parser
  import P = ParserTheorems
  import ShortCommands

  const MOV := 2
  const HALT := 25
  const TEXT := "mov r0\n" + "halt\n"
  const REST := [P.Command(HALT, [])]

  lemma MovLine(rest: string, copies: nat -> int)
    ensures TokensIn("mov r0\n" + rest, copies, 0)
         == [P.OpcodeToken(MOV), P.ArgumentToken(P.Register(0)), EOL_TOKEN] + TokensIn(rest, copies, 3)
  {
    hide TokensIn, Lexemes, TokenOf;
    var line := "mov r0\n";
    assert P.OpcodeName(MOV) == "mov" && REGISTERS[0] == "r0";
    OpcodeLexeme(MOV, copies(0));
    OpcodesAreSymbols(MOV);
    SymbolToken("mov", copies(0));
    RegisterToken(0, copies(1));
    SeparatorTokens(copies(2));
    assert "mov r0" + "\n" == line && "mov" + (" " + ("r0" + "\n")) == line;
    ChunkIsLine("mov r0", rest, BUFFER_SIZE - 1);
    LineStep(line + rest, copies, 0, line);
    ReadSpaced("mov", "r0" + "\n", 0);
    ReadEnd("r0", 1);
    assert (line + rest)[|line|..] == rest;
  }

  lemma HaltLine(copies: nat -> int)
    ensures TokensIn("halt\n", copies, 3) == P.ProgramTokens(REST)
  {
    hide TokensIn, Writable, P.ProgramTokens, P.OpcodeName;
    HaltText();
    TextTokens(REST, copies, 3);
  }

  lemma HaltText()
    ensures Writable(REST[0]) && FitsBuffer(REST[0]) && ProgramText(REST) == "halt\n"
  {
    assert P.OpcodeName(HALT) == "halt" && REST[1..] == [];
    assert "halt" + "\n" + "" == "halt\n";
  }

  lemma TextFits()
    ensures LexerSize(TEXT) + StreamSize(6) + Block(Assembler.INITIAL_LINE_CAPACITY * Parser.SIZEOF_LINE)
            + CopySize(P.OpcodeName(MOV)) <= Assembler.ARENA_SIZE
  {
    hide TextSize;
    TextSizeBound(TEXT);
    assert |TEXT| < 20 && |P.OpcodeName(MOV)| == 3;
  }

  lemma TwoLinesParse(capacity: nat, free: nat)
    requires capacity > 0 && CopySize(P.OpcodeName(MOV)) <= free
    ensures Parser.LinesFrom([P.OpcodeToken(MOV), P.ArgumentToken(P.Register(0)), EOL_TOKEN]
                             + (P.ProgramTokens(REST) + [EOF_TOKEN]), capacity, [], free)
         == Ok([Parser.Instr(Parser.Instruction(MOV, [Parser.Reg(0), Parser.Symbol("halt")]))])
  {
    hide Parser.LinesFrom, P.OpcodeName;
    HaltName();
    P.OneArgument(P.Register(0));
    assert REST[1..] == [] && P.OperandsMeant([P.Register(0)]) == [Parser.Reg(0)];
    ShortCommands.AnyCommand(MOV, [P.Register(0)], true, REST, capacity, [], free);
    var line := Parser.Instr(Parser.Instruction(MOV, [Parser.Reg(0)] + [Parser.Symbol("halt")]));
    assert ShortCommands.Taken(REST) == Ok(Parser.Symbol("halt"));
    assert ShortCommands.CommandTokens(MOV, [P.Register(0)], true)
        == [P.OpcodeToken(MOV), P.ArgumentToken(P.Register(0)), EOL_TOKEN];
    assert [Parser.Reg(0)] + [Parser.Symbol("halt")] == [Parser.Reg(0), Parser.Symbol("halt")];
    assert [] + [line] == [line] && [line] + P.LinesMeant([]) == [line];
    assert ShortCommands.After(REST, capacity, [line], free - CopySize(P.OpcodeName(MOV))) == Ok([line]);
  }

  lemma HaltName()
    ensures P.OpcodeName(HALT) == "halt"
  {
  }

  /** The two lines are one line, `mov r0, halt`, with halt as a symbol. */
  lemma MovSwallowsHalt(copies: nat -> int)
    ensures Assembler.FrontEnd(TEXT, copies, Assembler.INITIAL_LINE_CAPACITY, Assembler.ARENA_SIZE)
         == Ok([Parser.Instr(Parser.Instruction(MOV, [Parser.Reg(0), Parser.Symbol("halt")]))])
  {
    hide TokensIn, LexerSize, StreamSize, Parser.LinesFrom, P.OpcodeName;
    MovLine("halt\n", copies);
    HaltLine(copies);
    TextFits();
    var short := [P.OpcodeToken(MOV), P.ArgumentToken(P.Register(0)), EOL_TOKEN];
    assert P.ArgumentTokens([]) == [] && REST[1..] == [];
    assert |P.ProgramTokens(REST)| == 2;
    var tokens := short + P.ProgramTokens(REST) + [EOF_TOKEN];
    assert tokens == short + (P.ProgramTokens(REST) + [EOF_TOKEN]);
    var left := Assembler.ARENA_SIZE - LexerSize(TEXT) - StreamSize(6)
                - Block(Assembler.INITIAL_LINE_CAPACITY * Parser.SIZEOF_LINE);
    TwoLinesParse(Assembler.INITIAL_LINE_CAPACITY, left);
  }
}
