/** The example program in the repository's README, which names registers with a capital R. */
module ReadmeExample {
  import opened Arena
  import opened ArenaBounds
  import opened Tokens
  import opened Lexer
  import opened LexemeTheorems
  import opened SourceText
  import opened TokenStreams
  import Assembler
  import Parser
  import P = ParserTheorems

  const EXAMPLE :=
    "; Example BitLang Assembly\n" + ("MOV R1, 10\n" + ("MOV R2, 20\n" + ("ADD R1, R2\n" + "HALT\n")))

  /** What the example reads as: all its registers are r0. */
  const MEANING := [
    P.Command(2, [P.Register(0), P.Number(10)]), P.Command(2, [P.Register(0), P.Number(20)]),
    P.Command(4, [P.Register(0), P.Register(0)]), P.Command(25, [])]

  /** A line `name x, y` of a program. */
  lemma CommandLine(name: string, x: string, y: string, rest: string, copies: nat -> int, first: nat)
    requires IsWord(name) && IsWord(x) && IsWord(y) && |name| + |x| + |y| < 100
    ensures TokensIn(name + " " + x + ", " + y + "\n" + rest, copies, first)
         == [TokenOf(name, copies(first)), TokenOf(x, copies(first + 1)), COMMA_TOKEN,
             TokenOf(y, copies(first + 3)), EOL_TOKEN] + TokensIn(rest, copies, first + 5)
  {
    hide TokensIn, Lexemes, IsWord, TokenOf;
    var body := name + " " + x + ", " + y;
    NoNewline(name);
    NoNewline(x);
    NoNewline(y);
    ChunkIsLine(body, rest, BUFFER_SIZE - 1);
    LineStep(body + "\n" + rest, copies, first, body + "\n");
    ReadTwoArguments(name, x, y);
    SeparatorTokens(copies(first + 2));
    SeparatorTokens(copies(first + 4));
    assert (body + "\n" + rest)[|body + "\n"|..] == rest;
  }

  /** Letters are a name whatever their case, unless they begin with a capital R. */
  lemma LettersToken(s: string, copy: int)
    requires s != "" && s[0] != 'R' && forall i | 0 <= i < |s| :: IsAlpha(s[i])
    ensures IsWord(s) && TokenOf(s, copy) == Token(Identifier, 0, 0, Lower(s))
  {
    hide Lower;
  }

  lemma ExampleNames()
    ensures Lower("MOV") == OPCODES[2] && Lower("ADD") == OPCODES[4] && Lower("HALT") == OPCODES[25]
  {
    assert Lower("MOV") == ['m', 'o', 'v'] && Lower("ADD") == ['a', 'd', 'd'] && Lower("HALT") == ['h', 'a', 'l', 't'];
  }

  lemma TwoDigits(c: char, d: char, copy: int)
    requires IsDigit(c) && IsDigit(d)
    ensures IsWord([c, d])
    ensures TokenOf([c, d], copy) == P.ArgumentToken(P.Number(10 * (c as int - '0' as int) + (d as int - '0' as int)))
  {
    hide TokenOf;
    DecimalToken(false, [c, d], copy);
    assert Signed(false, [c, d]) == [c, d];
    assert [c, d][..1] == [c] && [c][..0] == "";
    assert Worth([c]) == c as int - '0' as int;
  }

  lemma MovLine(x: string, c: char, d: char, n: nat, rest: string, copies: nat -> int, first: nat)
    requires IsWord(x) && 0 < |x| < 10 && x[0] == 'R' && IsDigit(c) && IsDigit(d)
    requires n == 10 * (c as int - '0' as int) + (d as int - '0' as int)
    ensures TokensIn("MOV " + x + ", " + [c, d] + "\n" + rest, copies, first)
         == P.StatementTokens(P.Command(2, [P.Register(0), P.Number(n)])) + TokensIn(rest, copies, first + 5)
  {
    hide TokensIn, TokenOf, IsWord, Lower;
    LettersToken("MOV", copies(first));
    ExampleNames();
    CapitalRIsRegisterZero(x, copies(first + 1));
    TwoDigits(c, d, copies(first + 3));
    CommandLine("MOV", x, [c, d], rest, copies, first);
    assert "MOV" + " " + x + ", " + [c, d] + "\n" + rest == "MOV " + x + ", " + [c, d] + "\n" + rest;
    CommandTokens(2, [P.Register(0), P.Number(n)]);
  }

  lemma AddLine(rest: string, copies: nat -> int, first: nat)
    ensures TokensIn("ADD R1, R2\n" + rest, copies, first)
         == P.StatementTokens(MEANING[2]) + TokensIn(rest, copies, first + 5)
  {
    hide TokensIn, TokenOf, Lower;
    LettersToken("ADD", copies(first));
    ExampleNames();
    CapitalRIsRegisterZero("R1", copies(first + 1));
    CapitalRIsRegisterZero("R2", copies(first + 3));
    CommandLine("ADD", "R1", "R2", rest, copies, first);
    assert "ADD" + " " + "R1" + ", " + "R2" + "\n" + rest == "ADD R1, R2\n" + rest;
    CommandTokens(4, [P.Register(0), P.Register(0)]);
  }

  lemma HaltLine(copies: nat -> int, first: nat)
    ensures TokensIn("HALT\n", copies, first) == P.StatementTokens(MEANING[3])
  {
    hide TokensIn, TokenOf, Lower, Lexemes;
    LettersToken("HALT", copies(first));
    ExampleNames();
    SeparatorTokens(copies(first + 1));
    NoNewline("HALT");
    ChunkIsLine("HALT", "", BUFFER_SIZE - 1);
    assert "HALT" + "\n" + "" == "HALT\n";
    LineStep("HALT\n", copies, first, "HALT\n");
    ReadEnd("HALT", 0);
    NoMoreTokens("", copies, first + 2);
  }

  lemma CommentLine(rest: string, copies: nat -> int, first: nat)
    ensures TokensIn("; Example BitLang Assembly\n" + rest, copies, first) == TokensIn(rest, copies, first)
  {
    hide TokensIn, Lexemes;
    var body := "; Example BitLang Assembly";
    ChunkIsLine(body, rest, BUFFER_SIZE - 1);
    assert body + "\n" + rest == "; Example BitLang Assembly\n" + rest;
    StopStep(body + "\n", 0);
    LineStep(body + "\n" + rest, copies, first, body + "\n");
    assert (body + "\n" + rest)[|body + "\n"|..] == rest;
  }

  lemma MovLines(rest: string, copies: nat -> int, first: nat)
    ensures TokensIn("MOV R1, 10\n" + rest, copies, first)
         == P.StatementTokens(MEANING[0]) + TokensIn(rest, copies, first + 5)
    ensures TokensIn("MOV R2, 20\n" + rest, copies, first)
         == P.StatementTokens(MEANING[1]) + TokensIn(rest, copies, first + 5)
  {
    hide TokensIn;
    MovLine("R1", '1', '0', 10, rest, copies, first);
    assert "MOV " + "R1" + ", " + ['1', '0'] + "\n" + rest == "MOV R1, 10\n" + rest;
    MovLine("R2", '2', '0', 20, rest, copies, first);
    assert "MOV " + "R2" + ", " + ['2', '0'] + "\n" + rest == "MOV R2, 20\n" + rest;
  }

  lemma ExampleTokens(copies: nat -> int)
    ensures TokensIn(EXAMPLE, copies, 0)
         == P.StatementTokens(MEANING[0]) + (P.StatementTokens(MEANING[1])
            + (P.StatementTokens(MEANING[2]) + P.StatementTokens(MEANING[3])))
  {
    hide TokensIn, P.StatementTokens;
    var l3 := "ADD R1, R2\n" + "HALT\n";
    var l2 := "MOV R2, 20\n" + l3;
    CommentLine("MOV R1, 10\n" + l2, copies, 0);
    MovLines(l2, copies, 0);
    MovLines(l3, copies, 5);
    AddLine("HALT\n", copies, 10);
    HaltLine(copies, 15);
  }

  lemma MeaningTokens()
    ensures P.ProgramTokens(MEANING)
         == P.StatementTokens(MEANING[0]) + (P.StatementTokens(MEANING[1])
            + (P.StatementTokens(MEANING[2]) + P.StatementTokens(MEANING[3])))
    ensures |P.ProgramTokens(MEANING)| == 17
  {
    hide P.ArgumentToken, P.OpcodeToken;
    assert MEANING[1..][1..] == MEANING[2..] && MEANING[2..][1..] == MEANING[3..] && MEANING[3..][1..] == [];
    assert P.ProgramTokens([]) == [];
    assert P.ProgramTokens(MEANING[3..]) == P.StatementTokens(MEANING[3]);
    assert P.ProgramTokens(MEANING[2..]) == P.StatementTokens(MEANING[2]) + P.ProgramTokens(MEANING[3..]);
    assert P.ProgramTokens(MEANING[1..]) == P.StatementTokens(MEANING[1]) + P.ProgramTokens(MEANING[2..]);
  }

  lemma ExampleFits()
    ensures LexerSize(EXAMPLE) + StreamSize(18) + Block(Assembler.INITIAL_LINE_CAPACITY * Parser.SIZEOF_LINE)
            + P.StatementsSize(MEANING) <= Assembler.ARENA_SIZE
  {
    hide TextSize, P.StatementSize, P.StatementOk;
    TextSizeBound(EXAMPLE);
    assert |EXAMPLE| < 100;
    NamesAreShort();
    assert MEANING[1..][1..] == MEANING[2..] && MEANING[2..][1..] == MEANING[3..] && MEANING[3..][1..] == [];
    assert P.StatementsSize(MEANING[3..]) == P.StatementSize(MEANING[3]);
    assert P.StatementsSize(MEANING[2..]) == P.StatementSize(MEANING[2]) + P.StatementsSize(MEANING[3..]);
    assert P.StatementsSize(MEANING[1..]) == P.StatementSize(MEANING[1]) + P.StatementsSize(MEANING[2..]);
  }

  lemma NamesAreShort()
    ensures forall s | s in MEANING :: P.StatementOk(s) && P.StatementSize(s) < 100
  {
  }

  /** R1 and R2 both read as r0: the example moves 10, then 20, to r0 and adds r0 to itself. */
  lemma ExampleUsesOneRegister(copies: nat -> int)
    ensures Assembler.FrontEnd(EXAMPLE, copies, Assembler.INITIAL_LINE_CAPACITY, Assembler.ARENA_SIZE)
         == Ok(P.LinesMeant(MEANING))
  {
    hide TokensIn, P.ProgramTokens, P.StatementTokens, P.LinesMeant, P.StatementsSize, LexerSize, StreamSize;
    ExampleTokens(copies);
    MeaningTokens();
    ExampleFits();
    var left := Assembler.ARENA_SIZE - LexerSize(EXAMPLE) - StreamSize(18)
                - Block(Assembler.INITIAL_LINE_CAPACITY * Parser.SIZEOF_LINE);
    P.ReadStatements(MEANING, Assembler.INITIAL_LINE_CAPACITY, [], left);
    assert [] + P.LinesMeant(MEANING) == P.LinesMeant(MEANING);
  }
}
