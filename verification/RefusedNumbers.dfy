/** From source text to refusal: a number below -2^31 anywhere makes the assembler refuse the program. */
module RefusedNumbers {
  import opened Arena
  import opened LexemeTheorems
  import opened Lexer
  import opened OperandTheorems
  import opened SourceText
  import opened TokenStreams
  import opened Tokens
  import Assembler
  import Parser
  import VmCore
  import P = ParserTheorems

  /** The text of a command whose last operand is the number that `ds` write, with a minus sign. */
  function BadText(opcode: nat, before: seq<P.Argument>, ds: string): string
    requires opcode < |OPCODES| && |before| <= 1 && forall a | a in before :: ArgumentWritable(a)
  {
    P.OpcodeName(opcode) + " " + (if before == [] then "" else ArgumentText(before[0]) + ", ") + ("-" + ds)
  }

  ghost predicate BadLine(opcode: nat, before: seq<P.Argument>, ds: string) {
    && opcode < |OPCODES| && |before| <= 1 && |before| < VmCore.OperandCount(opcode)
    && (forall a | a in before :: ArgumentWritable(a))
    && AllDigits(ds) && Worth(ds) > 0x8000_0000
    && |BadText(opcode, before, ds)| < 1022
  }

  /** The value the lexer gives the number: what it writes, or the least 64-bit integer. */
  function LexedValue(ds: string): int
    requires AllDigits(ds)
  {
    if Worth(ds) > 0x8000_0000_0000_0000 then -0x8000_0000_0000_0000 else -(Worth(ds) as int)
  }

  lemma NegativeToken(ds: string, copy: int)
    requires AllDigits(ds)
    ensures IsWord("-" + ds) && TokenOf("-" + ds, copy) == NumberLiteral(LexedValue(ds))
  {
    hide TokenOf, Worth;
    DecimalToken(true, ds, copy);
  }

  lemma BadLexemes(opcode: nat, before: seq<P.Argument>, ds: string)
    requires BadLine(opcode, before, ds)
    ensures var number, name := "-" + ds, P.OpcodeName(opcode);
            && '\n' !in BadText(opcode, before, ds)
            && Lexemes(BadText(opcode, before, ds) + "\n", 0)
               == if before == [] then [name, number, "\n"] else [name, ArgumentText(before[0]), ",", number, "\n"]
  {
    hide Lexemes, IsWord, TokenOf, IsSymbol, ArgumentText, P.OpcodeName, Worth, LexedValue;
    var name, number := P.OpcodeName(opcode), "-" + ds;
    OpcodesAreSymbols(opcode);
    SymbolToken(name, 0);
    NegativeToken(ds, 0);
    NoNewline(name);
    NoNewline(number);
    if before == [] {
      assert BadText(opcode, before, ds) + "\n" == name + (" " + (number + "\n"));
      ReadSpaced(name, number + "\n", 0);
      ReadEnd(number, 1);
    } else {
      assert before[0] in before;
      ArgumentLexeme(before[0], 0);
      NoNewline(ArgumentText(before[0]));
      ReadTwoArguments(name, ArgumentText(before[0]), number);
      assert BadText(opcode, before, ds) == name + " " + ArgumentText(before[0]) + ", " + number;
    }
  }

  lemma BadTokens(opcode: nat, before: seq<P.Argument>, ds: string, rest: string, copies: nat -> int, first: nat)
    requires BadLine(opcode, before, ds)
    ensures var n := if before == [] then 3 else 5;
            TokensIn(BadText(opcode, before, ds) + "\n" + rest, copies, first) ==
            BadCommand(opcode, before, LexedValue(ds)) + ([EOL_TOKEN] + TokensIn(rest, copies, first + n))
  {
    hide Lexemes, TokenOf, TokensIn, IsWord, IsSymbol, ArgumentText, P.OpcodeName, P.OpcodeToken, P.ArgumentToken;
    hide Worth, LexedValue, BadText, NumberLiteral;
    var line := BadText(opcode, before, ds) + "\n";
    BadLexemes(opcode, before, ds);
    ChunkIsLine(BadText(opcode, before, ds), rest, BUFFER_SIZE - 1);
    LineStep(line + rest, copies, first, line);
    assert (line + rest)[|line|..] == rest;
    OpcodeLexeme(opcode, copies(first));
    if before == [] {
      NegativeToken(ds, copies(first + 1));
      SeparatorTokens(copies(first + 2));
    } else {
      assert before[0] in before;
      ArgumentLexeme(before[0], copies(first + 1));
      SeparatorTokens(copies(first + 2));
      NegativeToken(ds, copies(first + 3));
      SeparatorTokens(copies(first + 4));
    }
  }

  /**
   A number below -2^31, as either operand of any command, behind any printed program and before any
   text: the program is refused, unless tokens, lines or bytes run out before.
   */
  lemma NumberRefusesText(ss: seq<P.Statement>, opcode: nat, before: seq<P.Argument>, ds: string, after: string,
                          copies: nat -> int, capacity: nat, free: nat)
    requires (forall s | s in ss :: Writable(s) && FitsBuffer(s)) && BadLine(opcode, before, ds) && capacity > 0
    ensures var text := ProgramText(ss) + (BadText(opcode, before, ds) + "\n" + after);
            var n := |TokensIn(text, copies, 0)|;
            Assembler.FrontEnd(text, copies, capacity, free) ==
            if n < 256 && |ss| < capacity
               && LexerSize(text) + StreamSize(n + 1) + Block(capacity * 72)
                  + P.StatementsSize(ss) + CopySize(P.OpcodeName(opcode)) <= free
            then Failed else ExitOne
  {
    hide Writable, FitsBuffer, P.StatementOk, P.StatementsSize, P.ProgramTokens, LexerSize, StreamSize, TokensIn;
    hide Parser.LinesFrom, ProgramText, BadText, BadCommand, Worth, P.OpcodeName, ArgumentWritable;
    var bad := BadText(opcode, before, ds) + "\n" + after;
    var text := ProgramText(ss) + bad;
    var first, n := |P.ProgramTokens(ss)|, if before == [] then 3 else 5;
    TokensBefore(ss, bad, copies, 0);
    BadTokens(opcode, before, ds, after, copies, first);
    var rest := [EOL_TOKEN] + TokensIn(after, copies, first + n) + [EOF_TOKEN];
    var tokens := TokensIn(text, copies, 0);
    var command := BadCommand(opcode, before, LexedValue(ds));
    assert tokens + [EOF_TOKEN] == P.ProgramTokens(ss) + (command + rest);
    var left := free - LexerSize(text) - StreamSize(|tokens| + 1) - Block(capacity * Parser.SIZEOF_LINE);
    if left >= 0 {
      BadIsRefusable(opcode, before, ds);
      NumberRefusesProgram(ss, opcode, before, LexedValue(ds), rest, capacity, [], left);
    }
  }

  lemma BadIsRefusable(opcode: nat, before: seq<P.Argument>, ds: string)
    requires BadLine(opcode, before, ds)
    ensures Refusable(opcode, before, LexedValue(ds))
  {
    hide BadText;
  }
}
