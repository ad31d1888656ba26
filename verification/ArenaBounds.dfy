/** How much of the arena the front end takes: bounds for any text, and for printed programs. */
module ArenaBounds {
  import opened Arena
  import opened Lexer
  import opened LexemeTheorems
  import opened SourceText
  import opened TokenForms
  import opened Tokens
  import Assembler
  import Parser
  import P = ParserTheorems

  function Length(lexemes: seq<string>): nat {
    if lexemes == [] then 0 else |lexemes[0]| + Length(lexemes[1..])
  }

  lemma TokenSizeBound(x: string)
    ensures TokenSize(x) <= CopySize(x)
  {
    hide IsName, IsNumber;
  }

  lemma {:induction false} SizesBound(lexemes: seq<string>)
    ensures StoredSize(lexemes) == Length(lexemes) + (HEADER_SIZE + 1) * |lexemes|
    ensures TokenSizes(lexemes) <= StoredSize(lexemes)
  {
    hide TokenSize;
    if lexemes != [] {
      SizesBound(lexemes[1..]);
      TokenSizeBound(lexemes[0]);
    }
  }

  // ---- to the byte ----

  /** A name and a directive are copied with their terminator, a quoted string without its quotes, others not at all. */
  lemma TokenBytes(x: string)
    ensures TokenSize(x) ==
            if NameLike(x) || (|x| > 3 && x[0] == '.' && x[1] != '\0') then |x| + 9
            else if |x| >= 2 && x[0] == '"' && x[|x| - 1] == '"' then |x| + 7
            else 0
  {
  }

  /** The lexemes of a line take the room of a hundred pointers and a copy each, its tokens 32 bytes each. */
  lemma LineBytes(lexemes: seq<string>)
    ensures LineSize(lexemes) == 808 + Length(lexemes) + 9 * |lexemes|
    ensures TokensSize(lexemes) == if lexemes == [] then 0 else 8 + 32 * |lexemes| + TokenSizes(lexemes)
    ensures forall x :: TokenSizes([x] + lexemes) == TokenSize(x) + TokenSizes(lexemes)
  {
    hide TokenSize;
    SizesBound(lexemes);
    forall x ensures TokenSizes([x] + lexemes) == TokenSize(x) + TokenSizes(lexemes) {
      assert ([x] + lexemes)[1..] == lexemes;
    }
  }

  /** What the lexer takes beside its lines, the token stream, and a line that fits the buffer. */
  lemma StageBytes(text: string, n: nat, line: string, rest: string)
    requires '\n' !in line && |line| < 1023
    ensures LexerSize(text) == 8236 + TextSize(text) && TextSize("") == 0
    ensures TokenStreams.StreamSize(n) == 24 + 48 * n
    ensures var lexemes := Lexemes(line + "\n", 0);
            TextSize(line + "\n" + rest) == LineSize(lexemes) + TokensSize(lexemes) + TextSize(rest)
  {
    hide Lexemes, LineSize, TokensSize, TextSize, Chunk;
    ChunkIsLine(line, rest, 1023);
    TextSizeStep(line + "\n" + rest, line + "\n");
    assert (line + "\n" + rest)[|line + "\n"|..] == rest;
    NoMoreTokens("", i => 0, 0);
  }

  // ---- bounds ----

  /** A line of `k` lexemes with `n` characters takes at most this. */
  function LineBound(n: nat, k: nat): nat {
    816 + 2 * n + 50 * k
  }

  lemma LineSizeBound(lexemes: seq<string>)
    ensures LineSize(lexemes) + TokensSize(lexemes) <= LineBound(Length(lexemes), |lexemes|)
  {
    hide StoredSize, TokenSizes;
    SizesBound(lexemes);
  }

  // ---- any text ----

  lemma {:induction false} LengthIsConcat(lexemes: seq<string>)
    ensures Length(lexemes) == |Concat(lexemes)|
    ensures (forall x | x in lexemes :: x != "") ==> |lexemes| <= Length(lexemes)
  {
    if lexemes != [] {
      LengthIsConcat(lexemes[1..]);
      assert lexemes[0] in lexemes && forall x | x in lexemes[1..] :: x in lexemes;
    }
  }

  lemma {:induction false} SqueezedIsShorter(s: string)
    ensures |Squeezed(s)| <= |s|
  {
    if s != "" {
      SqueezedIsShorter(s[1..]);
    }
  }

  lemma LexemesAreShorter(line: string)
    ensures |Lexemes(line, 0)| <= Length(Lexemes(line, 0)) <= |line|
  {
    hide Lexemes, Squeezed, ExtentOf, Concat, Length;
    LexemesCoverWhatWasRead(line, 0);
    LexemesAreNormal(line, 0);
    SqueezedIsShorter(ExtentOf(line, 0).read);
    assert line == ExtentOf(line, 0).read + ExtentOf(line, 0).unread;
    forall x | x in Lexemes(line, 0) ensures x != "" {
      assert IsLexeme(x);
    }
    LengthIsConcat(Lexemes(line, 0));
  }

  /** A text of n characters takes at most 868 bytes for each of them. */
  lemma {:induction false} TextSizeBound(text: string)
    ensures TextSize(text) <= 868 * |text|
    decreases |text|
  {
    hide Lexemes, LineSize, TokensSize, Chunk, TextSize;
    if text == "" {
      NoMoreTokens(text, i => 0, 0);
    } else {
      var line := Chunk(text, BUFFER_SIZE - 1);
      TextSizeStep(text, line);
      LineSizeBound(Lexemes(line, 0));
      LexemesAreShorter(line);
      TextSizeBound(text[|line|..]);
    }
  }

  // ---- printed programs ----

  lemma WordsBound(s: P.Statement)
    requires Writable(s)
    ensures |Words(s)| <= 5 && Length(Words(s)) <= |LineText(s)| + 1
  {
    hide ArgumentText, P.OpcodeName, Length, IsSymbol;
    match s
    case LabelDef(name) => Lengths(name + ":", "\n", "", "", "");
    case Order(d) => Lengths(DIRECTIVES[d], "\n", "", "", "");
    case Command(opcode, arguments) =>
      var name := P.OpcodeName(opcode);
      if |arguments| == 0 {
        Lengths(name, "\n", "", "", "");
      } else if |arguments| == 1 {
        Lengths(name, ArgumentText(arguments[0]), "\n", "", "");
      } else {
        Lengths(name, ArgumentText(arguments[0]), ",", ArgumentText(arguments[1]), "\n");
      }
  }

  lemma Lengths(a: string, b: string, c: string, d: string, e: string)
    ensures Length([a, b]) == |a| + |b| && Length([a, b, c]) == |a| + |b| + |c|
    ensures Length([a, b, c, d, e]) == |a| + |b| + |c| + |d| + |e|
  {
    assert [a, b][1..] == [b] && [a, b, c][1..] == [b, c] && [b, c][1..] == [c] && [c][1..] == [] && [b][1..] == [];
    assert Length([c]) == |c| && Length([b]) == |b| && Length([b, c]) == |b| + |c|;
    assert [a, b, c, d, e][1..] == [b, c, d, e] && [b, c, d, e][1..] == [c, d, e] && [c, d, e][1..] == [d, e]
        && [d, e][1..] == [e] && [e][1..] == [];
    assert Length([d, e]) == |d| + |e| && Length([c, d, e]) == |c| + |d| + |e|;
    assert Length([b, c, d, e]) == |b| + |c| + |d| + |e|;
  }

  lemma StatementBounds(s: P.Statement)
    requires Writable(s) && FitsBuffer(s)
    ensures P.StatementSize(s) <= 1032 && |P.StatementTokens(s)| >= 2
  {
    hide Writable, ArgumentText, P.OpcodeName;
  }

  lemma {:induction false} ProgramBounds(ss: seq<P.Statement>)
    requires forall s | s in ss :: Writable(s) && FitsBuffer(s)
    ensures TextSize(ProgramText(ss)) <= 3112 * |ss|
    ensures P.StatementsSize(ss) <= 1032 * |ss|
    ensures |P.ProgramTokens(ss)| >= 2 * |ss|
    decreases |ss|
  {
    hide Writable, FitsBuffer, LineText, Lexemes, LineSize, TokensSize, Chunk, TextSize;
    hide P.StatementTokens, P.StatementSize, P.StatementOk;
    var text := ProgramText(ss);
    if ss == [] {
      NoMoreTokens(text, i => 0, 0);
    } else {
      var s, rest := ss[0], ProgramText(ss[1..]);
      var line := LineText(s) + "\n";
      FittingLine(s);
      LineHasNoNewline(s);
      ChunkIsLine(LineText(s), rest, BUFFER_SIZE - 1);
      TextSizeStep(text, line);
      LineLexemes(s);
      LineSizeBound(Words(s));
      WordsBound(s);
      StatementBounds(s);
      assert text[|line|..] == rest;
      ProgramBounds(ss[1..]);
    }
  }

  lemma FittingLine(s: P.Statement)
    requires Writable(s) && FitsBuffer(s)
    ensures |LineText(s)| < BUFFER_SIZE - 1
  {
  }

  /** With at most 255 tokens and a hundred lines, main's arena is large enough. */
  lemma ArenaSuffices(ss: seq<P.Statement>)
    requires forall s | s in ss :: Writable(s) && FitsBuffer(s) && P.StatementOk(s)
    requires |P.ProgramTokens(ss)| < INITIAL_TOKEN_CAPACITY
    ensures ProgramSize(ss, Assembler.INITIAL_LINE_CAPACITY) <= Assembler.ARENA_SIZE
  {
    hide Writable, FitsBuffer, P.StatementOk, P.ProgramTokens, P.StatementsSize, TextSize;
    ProgramBounds(ss);
  }

  /**
   The round trip as main runs it: a printed program is read back iff it has at most
   255 tokens and a hundred lines, and makes the assembler exit otherwise.
   */
  lemma MainRoundTrip(ss: seq<P.Statement>, copies: nat -> int)
    requires forall s | s in ss :: Writable(s) && FitsBuffer(s)
    ensures Assembler.FrontEnd(ProgramText(ss), copies, Assembler.INITIAL_LINE_CAPACITY, Assembler.ARENA_SIZE)
         == if |P.ProgramTokens(ss)| < INITIAL_TOKEN_CAPACITY && |ss| <= Assembler.INITIAL_LINE_CAPACITY
            then Ok(P.LinesMeant(ss)) else ExitOne
  {
    hide Writable, FitsBuffer, P.StatementOk, P.ProgramTokens, Assembler.FrontEnd, ProgramSize;
    SourceRoundTrip(ss, copies, Assembler.INITIAL_LINE_CAPACITY, Assembler.ARENA_SIZE);
    if |P.ProgramTokens(ss)| < INITIAL_TOKEN_CAPACITY {
      ArenaSuffices(ss);
    }
  }
}
