/** Programs as source text: what a lexeme stands for, and the round trip from text to lines. */
module SourceText {
  import opened Arena
  import opened Bits
  import opened Tokens
  import opened Lexer
  import opened LexemeTheorems
  import opened Assembler
  import Parser
  import opened TokenStreams
  import P = ParserTheorems
  import VmCore

  // ---- numbers ----

  predicate AllDigits(s: string) {
    s != "" && forall i | 0 <= i < |s| :: IsDigit(s[i])
  }

  /** The number that decimal digits write. */
  function Worth(ds: string): nat
    requires forall i | 0 <= i < |ds| :: IsDigit(ds[i])
  {
    if ds == "" then 0 else
      var front, last := ds[..|ds| - 1], ds[|ds| - 1];
      assert IsDigit(last);
      10 * Worth(front) + (last as int - '0' as int)
  }

  /** How the assembler stores a decimal literal of value `v`. */
  function Stored(v: int): Outcome<U32> {
    if v < -0x8000_0000 then Failed
    else if v >= TWO_TO_THE_32 then Ok(TWO_TO_THE_32 - 1)
    else Ok(v % TWO_TO_THE_32)
  }

  lemma {:induction false} MagnitudeSplits(s: string, t: string, base: nat, acc: nat)
    requires forall i | 0 <= i < |s| :: DigitValue(s[i]) < base
    ensures Magnitude(s + t, base, acc) == Magnitude(t, base, Magnitude(s, base, acc))
  {
    if s == "" {
      assert s + t == t;
    } else {
      assert (s + t)[1..] == s[1..] + t;
      MagnitudeSplits(s[1..], t, base, acc * base + DigitValue(s[0]));
    }
  }

  lemma {:induction false} MagnitudeIsWorth(ds: string)
    requires forall i | 0 <= i < |ds| :: IsDigit(ds[i])
    ensures Magnitude(ds, 10, 0) == Worth(ds)
  {
    if ds != "" {
      var front, last := ds[..|ds| - 1], [ds[|ds| - 1]];
      assert ds == front + last;
      MagnitudeIsWorth(front);
      MagnitudeSplits(front, last, 10, 0);
      assert last[1..] == "";
      assert Magnitude(last, 10, Worth(front)) == Magnitude("", 10, Worth(front) * 10 + DigitValue(last[0]));
    }
  }

  function Signed(negative: bool, ds: string): string {
    (if negative then "-" else "") + ds
  }

  lemma DecimalToken(negative: bool, ds: string, copy: int)
    requires AllDigits(ds)
    ensures var worth: int := Worth(ds);
            TokenOf(Signed(negative, ds), copy)
            == Token(Literal, LIT_INTEGER, Clamped(Saturated(if negative then -worth else worth)), "")
  {
    hide Magnitude, Worth;
    var s := Signed(negative, ds);
    MagnitudeIsWorth(ds);
    if negative {
      assert s[0] == '-' && s[1] == ds[0] && s[1..] == ds;
    } else {
      assert s == ds && IsDigit(s[0]);
    }
    assert s !in REGISTERS;
  }

  /**
   A decimal literal of any length, through lexer and parse_integer: in range it is
   stored modulo 2^32, above it saturates, below it is rejected.
   */
  lemma DecimalLiteral(negative: bool, ds: string, copy: int)
    requires AllDigits(ds)
    ensures var token := TokenOf(Signed(negative, ds), copy);
            && token.kind == Literal && token.tag == LIT_INTEGER
            && var worth: int := Worth(ds);
               Parser.IntegerOf(token.val) == Stored(if negative then -worth else worth)
  {
    hide TokenOf, Worth;
    DecimalToken(negative, ds, copy);
  }

  // hexadecimal literals

  predicate AllHexDigits(s: string) {
    s != "" && forall i | 0 <= i < |s| :: DigitValue(s[i]) < 16
  }

  /** The number that hexadecimal digits write. */
  function HexWorth(hs: string): nat
    requires forall i | 0 <= i < |hs| :: DigitValue(hs[i]) < 16
  {
    if hs == "" then 0 else 16 * HexWorth(hs[..|hs| - 1]) + DigitValue(hs[|hs| - 1])
  }

  lemma {:induction false} MagnitudeIsHexWorth(hs: string)
    requires forall i | 0 <= i < |hs| :: DigitValue(hs[i]) < 16
    ensures Magnitude(hs, 16, 0) == HexWorth(hs)
  {
    if hs != "" {
      var front, last := hs[..|hs| - 1], [hs[|hs| - 1]];
      assert hs == front + last;
      MagnitudeIsHexWorth(front);
      MagnitudeSplits(front, last, 16, 0);
      assert last[1..] == "";
      assert Magnitude(last, 16, HexWorth(front)) == Magnitude("", 16, HexWorth(front) * 16 + DigitValue(last[0]));
    }
  }

  lemma {:induction false} HexWorthGrows(hs: string)
    requires AllHexDigits(hs)
    ensures HexWorth(hs) >= DigitValue(hs[0])
  {
    if |hs| > 1 {
      HexWorthGrows(hs[..|hs| - 1]);
    } else {
      assert hs[..0] == "";
    }
  }

  /** With a first digit of 0 to 9 the lexer reads base 16. */
  lemma HexLiteralStartingWithADigit(hs: string, copy: int)
    requires AllHexDigits(hs) && IsDigit(hs[0])
    ensures TokenOf("0x" + hs, copy) == Token(Literal, LIT_INTEGER, Clamped(Saturated(HexWorth(hs))), "")
  {
    hide Magnitude, HexWorth;
    var s := "0x" + hs;
    MagnitudeIsHexWorth(hs);
    assert s[0] == '0' && s[1] == 'x' && s[2] == hs[0] && s[2..] == hs;
    assert s !in REGISTERS;
  }

  /** With a letter first it reads base 10, and stops at the x. */
  lemma HexLiteralStartingWithALetter(hs: string, copy: int)
    requires hs != "" && !IsDigit(hs[0])
    ensures TokenOf("0x" + hs, copy) == Token(Literal, LIT_INTEGER, 0, "")
  {
    var s := "0x" + hs;
    assert s[0] == '0' && s[1] == 'x' && s[2] == hs[0];
    assert Magnitude(s, 10, 0) == Magnitude(s[1..], 10, 0) == 0;
  }

  /** A hexadecimal literal of any length is stored as the number it writes iff its first digit is 0 to 9. */
  lemma HexLiteral(hs: string, copy: int)
    requires AllHexDigits(hs)
    ensures Parser.IntegerOf(TokenOf("0x" + hs, copy).val) == Stored(HexWorth(hs)) <==> IsDigit(hs[0])
  {
    hide TokenOf, HexWorth;
    if IsDigit(hs[0]) {
      HexLiteralStartingWithADigit(hs, copy);
    } else {
      HexLiteralStartingWithALetter(hs, copy);
      HexWorthGrows(hs);
    }
  }

  /** With a capital X, or behind a minus sign, no prefix is read at all: the value is 0 whatever follows. */
  lemma OtherHexPrefixes(hs: string, copy: int)
    ensures TokenOf("0X" + hs, copy) == TokenOf("-0x" + hs, copy) == Token(Literal, LIT_INTEGER, 0, "")
  {
    var s, t := "0X" + hs, "-0x" + hs;
    assert s[0] == '0' && s[1] == 'X' && t[0] == '-' && t[1] == '0' && t[2] == 'x';
    assert s !in REGISTERS && t !in REGISTERS;
    assert Magnitude(s, 10, 0) == Magnitude(s[1..], 10, 0) == 0;
    assert t[1..][0] == '0' && t[1..][1..][0] == 'x';
    assert Magnitude(t[1..], 10, 0) == Magnitude(t[1..][1..], 10, 0) == 0;
  }

  // registers

  /** A lexeme denotes register 1 to 7 iff it is that register's name. */
  lemma RegisterDenoted(s: string, k: nat, copy: int)
    requires 0 < k < 8
    ensures TokenOf(s, copy) == Token(Register, k, 0, "") <==> s == REGISTERS[k]
  {
    hide Strtoll, Lower;
  }

  /** The lexemes no branch of the lexer takes, by how they begin. */
  predicate Unread(s: string) {
    var c0, c1 := CharAt(s, 0), CharAt(s, 1);
    if IsIdentStart(c0) then (c0 == 'R' || IsDigit(c1)) && s !in REGISTERS
    else if c0 == '-' then !IsDigit(c1)
    else if c0 == '\'' then !(|s| == 3 && s[2] == c0)
    else if c0 == '"' then !(|s| >= 2 && s[|s| - 1] == c0)
    else if c0 == ',' || c0 == '\n' then |s| > 1
    else if c0 == '.' then |s| <= 3 || c1 == '\0'
    else !IsDigit(c0)
  }

  /** Register 0 is read from r0, and from every lexeme the lexer has no branch for. */
  lemma ReadAsRegisterZero(s: string, copy: int)
    requires s != ""
    ensures TokenOf(s, copy) == ZERO_TOKEN <==> s == "r0" || Unread(s)
  {
    hide Strtoll, Lower;
  }

  /** So a lexeme that begins with a capital R is register 0 whatever follows. */
  lemma CapitalRIsRegisterZero(s: string, copy: int)
    requires s != "" && s[0] == 'R'
    ensures TokenOf(s, copy) == ZERO_TOKEN == Token(Register, 0, 0, "")
  {
    assert s !in REGISTERS;
  }

  /** A character literal in operand position is an integer: the lexer does not tag literals. */
  lemma CharacterLiteralIsInteger(c: char, copy: int)
    ensures Parser.OperandFrom([TokenOf(['\'', c, '\''], copy)]) == Parser.Parsed(Ok(Parser.Int(c as int % 256)), [], 0)
  {
    var s := ['\'', c, '\''];
    assert s[0] == '\'' && s !in REGISTERS && |s| == 3;
  }

  // ---- source text ----

  function DigitChar(d: nat): (c: char)
    requires d < 10
    ensures IsDigit(c) && c as int - '0' as int == d
  {
    ('0' as int + d) as char
  }

  function Digits(n: nat): (s: string)
    ensures AllDigits(s)
  {
    if n < 10 then [DigitChar(n)] else Digits(n / 10) + [DigitChar(n % 10)]
  }

  function Decimal(v: int): string {
    if v < 0 then Signed(true, Digits(-v)) else Signed(false, Digits(v))
  }

  lemma {:induction false} DigitsAreWorth(n: nat)
    ensures Worth(Digits(n)) == n
  {
    if n >= 10 {
      DigitsAreWorth(n / 10);
      assert Digits(n)[..|Digits(n)| - 1] == Digits(n / 10);
    } else {
      assert Digits(n)[..0] == "";
    }
  }

  /** Names the lexer keeps as they are. */
  predicate IsSymbol(s: string) {
    && s != "" && IsIdentStart(s[0]) && !IsDigit(CharAt(s, 1))
    && forall i | 0 <= i < |s| :: IsIdentChar(s[i]) && ToLower(s[i]) == s[i]
  }

  predicate ArgumentWritable(a: P.Argument): (r: bool)
    ensures r ==> P.ArgumentOk(a)
  {
    match a
    case Register(id) => id < 8
    case Name(s) => IsSymbol(s)
    case Number(v) => Parser.INT32_MIN <= v <= Parser.UINT32_MAX
  }

  /** Labels, directives without operands, and commands over r0 to r7, symbols and 32-bit integers. */
  predicate Writable(s: P.Statement): (r: bool)
    ensures r ==> P.StatementOk(s)
  {
    match s
    case LabelDef(name) => IsSymbol(name)
    case Order(d) => d < |DIRECTIVES|
    case Command(opcode, arguments) =>
      && opcode < |OPCODES| && |arguments| == VmCore.OperandCount(opcode)
      && forall a | a in arguments :: ArgumentWritable(a)
  }

  function ArgumentText(a: P.Argument): string
    requires ArgumentWritable(a)
  {
    match a
    case Register(id) => REGISTERS[id]
    case Name(s) => s
    case Number(v) => Decimal(v)
  }

  function LineText(s: P.Statement): string
    requires Writable(s)
  {
    match s
    case LabelDef(name) => name + ":"
    case Order(d) => DIRECTIVES[d]
    case Command(opcode, arguments) =>
      if |arguments| == 0 then P.OpcodeName(opcode)
      else if |arguments| == 1 then P.OpcodeName(opcode) + " " + ArgumentText(arguments[0])
      else P.OpcodeName(opcode) + " " + ArgumentText(arguments[0]) + ", " + ArgumentText(arguments[1])
  }

  function ProgramText(ss: seq<P.Statement>): string
    requires forall s | s in ss :: Writable(s)
  {
    if ss == [] then "" else LineText(ss[0]) + "\n" + ProgramText(ss[1..])
  }

  // ---- one word ----

  lemma SymbolToken(s: string, copy: int)
    requires IsSymbol(s)
    ensures IsWord(s) && TokenOf(s, copy) == Token(Identifier, 0, 0, s)
    ensures IsWord(s + ":") && TokenOf(s + ":", copy) == Token(Identifier, 0, 0, s + ":")
  {
    assert Lower(s) == s && Lower(s + ":") == s + ":";
  }

  lemma OpcodesAreSymbols(opcode: nat)
    requires opcode < |OPCODES|
    ensures IsSymbol(P.OpcodeName(opcode))
  {
  }

  lemma RegisterToken(id: nat, copy: int)
    requires id < 8
    ensures IsWord(REGISTERS[id]) && TokenOf(REGISTERS[id], copy) == Token(Register, id, 0, "")
  {
  }

  lemma NumberToken(v: int, copy: int)
    requires Parser.INT32_MIN <= v <= Parser.UINT32_MAX
    ensures IsWord(Decimal(v)) && TokenOf(Decimal(v), copy) == Token(Literal, LIT_INTEGER, v, "")
  {
    hide TokenOf, Worth, Digits;
    DigitsAreWorth(if v < 0 then -v else v);
    DecimalToken(v < 0, Digits(if v < 0 then -v else v), copy);
  }

  lemma DirectiveToken(d: nat, copy: int)
    requires d < |DIRECTIVES|
    ensures IsWord(DIRECTIVES[d]) && TokenOf(DIRECTIVES[d], copy) == Token(Directive, d, 0, "")
  {
    hide Lookup, TokenOf;
    var s := DIRECTIVES[d];
    assert s[0] == '.' && s[1] != '\0' && |s| > 3;
    DottedToken(s, copy);
    DirectivesDiffer(Lookup(DIRECTIVES, s), d);
  }

  /** What a lexeme becomes that begins with a dot. */
  lemma DottedToken(s: string, copy: int)
    requires |s| > 3 && s[0] == '.' && s[1] != '\0'
    ensures TokenOf(s, copy) == Token(Directive, Lookup(DIRECTIVES, s), 0, "")
  {
    hide Lookup, Strtoll, IsName, IsNumber, IsHex, IsCharacter, IsQuoted, IsDirective;
    RegistersAreShort();
    Dotted(s);
  }

  lemma Dotted(s: string)
    requires |s| > 3 && s[0] == '.' && s[1] != '\0'
    ensures !IsName(s) && !IsNumber(s) && !IsHex(s) && !IsCharacter(s) && !IsQuoted(s) && IsDirective(s)
  {
  }

  lemma RegistersAreShort()
    ensures forall r | r in REGISTERS :: |r| == 2
  {
  }

  lemma DirectivesDiffer(i: nat, j: nat)
    requires i < |DIRECTIVES| && j < |DIRECTIVES| && DIRECTIVES[i] == DIRECTIVES[j]
    ensures i == j
  {
    var s, t := DIRECTIVES[i], DIRECTIVES[j];
    assert |s| == |t| && s[1] == t[1];
  }

  lemma ArgumentLexeme(a: P.Argument, copy: int)
    requires ArgumentWritable(a)
    ensures IsWord(ArgumentText(a)) && TokenOf(ArgumentText(a), copy) == P.ArgumentToken(a)
  {
    hide IsWord, TokenOf, IsSymbol, Decimal;
    match a
    case Register(id) => RegisterToken(id, copy);
    case Name(s) => SymbolToken(s, copy);
    case Number(v) => NumberToken(v, copy);
  }

  lemma SeparatorTokens(copy: int)
    ensures TokenOf(",", copy) == COMMA_TOKEN && TokenOf("\n", copy) == EOL_TOKEN
  {
  }

  // ---- one line ----

  function Words(s: P.Statement): seq<string>
    requires Writable(s)
  {
    match s
    case LabelDef(name) => [name + ":", "\n"]
    case Order(d) => [DIRECTIVES[d], "\n"]
    case Command(opcode, arguments) =>
      if |arguments| == 0 then [P.OpcodeName(opcode), "\n"]
      else if |arguments| == 1 then [P.OpcodeName(opcode), ArgumentText(arguments[0]), "\n"]
      else [P.OpcodeName(opcode), ArgumentText(arguments[0]), ",", ArgumentText(arguments[1]), "\n"]
  }

  lemma ReadEnd(w: string, count: nat)
    requires IsWord(w) && count < MAX_SEPARATORS
    ensures Lexemes(w + "\n", count) == [w, "\n"]
  {
    hide Lexemes, IsWord;
    ReadWord(w, "\n", count);
    ReadSeparator("\n", "", count + 1);
    StopStep("", count + 2);
    assert "\n" + "" == "\n";
  }

  lemma ReadSpaced(w: string, s: string, count: nat)
    requires IsWord(w) && count < MAX_LEXEMES
    ensures Lexemes(w + (" " + s), count) == [w] + Lexemes(s, count + 1)
  {
    hide Lexemes, IsWord;
    ReadWord(w, " " + s, count);
    ReadBlank(s, count + 1);
  }

  lemma ReadComma(w: string, s: string, count: nat)
    requires IsWord(w) && count < MAX_SEPARATORS
    ensures Lexemes(w + ("," + s), count) == [w, ","] + Lexemes(s, count + 2)
  {
    hide Lexemes, IsWord;
    ReadWord(w, "," + s, count);
    ReadSeparator(",", s, count + 1);
  }

  lemma ReadTwoArguments(name: string, a: string, b: string)
    requires IsWord(name) && IsWord(a) && IsWord(b)
    ensures Lexemes(name + " " + a + ", " + b + "\n", 0) == [name, a, ",", b, "\n"]
  {
    hide Lexemes, IsWord;
    var tail := b + "\n";
    assert name + " " + a + ", " + b + "\n" == name + (" " + (a + ("," + (" " + tail))));
    ReadSpaced(name, a + ("," + (" " + tail)), 0);
    ReadComma(a, " " + tail, 1);
    ReadBlank(tail, 3);
    ReadEnd(b, 3);
  }

  lemma LineLexemes(s: P.Statement)
    requires Writable(s)
    ensures Lexemes(LineText(s) + "\n", 0) == Words(s)
  {
    hide Lexemes, IsWord, IsSymbol, ArgumentText, P.OpcodeName;
    match s
    case LabelDef(name) =>
      SymbolToken(name, 0);
      ReadEnd(name + ":", 0);
    case Order(d) =>
      DirectiveToken(d, 0);
      ReadEnd(DIRECTIVES[d], 0);
    case Command(opcode, arguments) =>
      var name := P.OpcodeName(opcode);
      OpcodesAreSymbols(opcode);
      SymbolToken(name, 0);
      if |arguments| == 0 {
        ReadEnd(name, 0);
      } else if |arguments| == 1 {
        ArgumentLexeme(arguments[0], 0);
        var a := ArgumentText(arguments[0]);
        assert LineText(s) + "\n" == name + (" " + (a + "\n"));
        ReadSpaced(name, a + "\n", 0);
        ReadEnd(a, 1);
      } else {
        ArgumentLexeme(arguments[0], 0);
        ArgumentLexeme(arguments[1], 0);
        ReadTwoArguments(name, ArgumentText(arguments[0]), ArgumentText(arguments[1]));
      }
  }

  lemma OpcodeLexeme(opcode: nat, copy: int)
    requires opcode < |OPCODES|
    ensures TokenOf(P.OpcodeName(opcode), copy) == P.OpcodeToken(opcode)
  {
    hide TokenOf, P.OpcodeName, IsSymbol;
    OpcodesAreSymbols(opcode);
    SymbolToken(P.OpcodeName(opcode), copy);
  }

  lemma LineTokens(s: P.Statement, copies: nat -> int, first: nat)
    requires Writable(s)
    ensures TokensOf(Words(s), copies, first) == P.StatementTokens(s)
  {
    hide TokenOf, IsWord, IsSymbol, ArgumentText, P.OpcodeName, P.OpcodeToken, P.ArgumentToken;
    var ts := TokensOf(Words(s), copies, first);
    match s
    case LabelDef(name) =>
      SymbolToken(name, copies(first));
      SeparatorTokens(copies(first + 1));
    case Order(d) =>
      DirectiveToken(d, copies(first));
      SeparatorTokens(copies(first + 1));
    case Command(opcode, arguments) =>
      OpcodeLexeme(opcode, copies(first));
      CommandTokens(opcode, arguments);
      if |arguments| == 0 {
        SeparatorTokens(copies(first + 1));
        assert ts == [P.OpcodeToken(opcode), EOL_TOKEN];
      } else if |arguments| == 1 {
        ArgumentLexeme(arguments[0], copies(first + 1));
        SeparatorTokens(copies(first + 2));
        assert ts == [P.OpcodeToken(opcode), P.ArgumentToken(arguments[0]), EOL_TOKEN];
      } else {
        ArgumentLexeme(arguments[0], copies(first + 1));
        SeparatorTokens(copies(first + 2));
        ArgumentLexeme(arguments[1], copies(first + 3));
        SeparatorTokens(copies(first + 4));
        assert ts == [P.OpcodeToken(opcode), P.ArgumentToken(arguments[0]), COMMA_TOKEN,
                      P.ArgumentToken(arguments[1]), EOL_TOKEN];
      }
  }

  lemma CommandTokens(opcode: nat, arguments: seq<P.Argument>)
    requires P.StatementOk(P.Command(opcode, arguments))
    ensures P.StatementTokens(P.Command(opcode, arguments))
         == if |arguments| == 0 then [P.OpcodeToken(opcode), EOL_TOKEN]
            else if |arguments| == 1 then [P.OpcodeToken(opcode), P.ArgumentToken(arguments[0]), EOL_TOKEN]
            else [P.OpcodeToken(opcode), P.ArgumentToken(arguments[0]), COMMA_TOKEN,
                  P.ArgumentToken(arguments[1]), EOL_TOKEN]
  {
    hide P.OpcodeToken, P.ArgumentToken;
    if |arguments| == 2 {
      assert P.ArgumentTokens(arguments[1..]) == [P.ArgumentToken(arguments[1])];
    }
  }

  lemma NoNewline(w: string)
    requires IsWord(w)
    ensures '\n' !in w
  {
  }

  lemma LineHasNoNewline(s: P.Statement)
    requires Writable(s)
    ensures '\n' !in LineText(s)
  {
    hide IsWord, IsSymbol, ArgumentText, P.OpcodeName;
    match s
    case LabelDef(name) =>
      SymbolToken(name, 0);
      NoNewline(name + ":");
    case Order(d) =>
      DirectiveToken(d, 0);
      NoNewline(DIRECTIVES[d]);
    case Command(opcode, arguments) =>
      OpcodesAreSymbols(opcode);
      SymbolToken(P.OpcodeName(opcode), 0);
      NoNewline(P.OpcodeName(opcode));
      forall a | a in arguments ensures '\n' !in ArgumentText(a) {
        ArgumentLexeme(a, 0);
        NoNewline(ArgumentText(a));
      }
  }

  /** fgets reads a line that fits as a whole. */
  lemma {:induction false} ChunkIsLine(line: string, rest: string, room: nat)
    requires '\n' !in line && |line| < room
    ensures Chunk(line + "\n" + rest, room) == line + "\n"
    decreases |line|
  {
    var text := line + "\n" + rest;
    if line != "" {
      assert text[1..] == line[1..] + "\n" + rest;
      assert text[0] == line[0];
      ChunkIsLine(line[1..], rest, room - 1);
    }
  }

  // ---- whole programs ----

  predicate FitsBuffer(s: P.Statement)
    requires Writable(s)
  {
    |LineText(s)| + 1 < BUFFER_SIZE
  }

  /** A printed program, and any text behind it. */
  lemma {:induction false} TokensBefore(ss: seq<P.Statement>, rest: string, copies: nat -> int, first: nat)
    requires forall s | s in ss :: Writable(s) && FitsBuffer(s)
    ensures TokensIn(ProgramText(ss) + rest, copies, first)
         == P.ProgramTokens(ss) + TokensIn(rest, copies, first + |P.ProgramTokens(ss)|)
    decreases |ss|
  {
    hide Writable, FitsBuffer, LineText, P.StatementOk, P.StatementTokens, TokensIn, Words, ProgramText;
    hide P.ProgramTokens;
    ProgramBegins(ss, rest);
    if ss != [] {
      var n := |P.StatementTokens(ss[0])|;
      StatementLexed(ss[0], ProgramText(ss[1..]) + rest, copies, first);
      TokensBefore(ss[1..], rest, copies, first + n);
      var now, more, last := P.StatementTokens(ss[0]), P.ProgramTokens(ss[1..]),
        TokensIn(rest, copies, first + |P.ProgramTokens(ss)|);
      assert now + (more + last) == now + more + last;
    }
  }

  /** One printed statement, and any text behind it. */
  lemma StatementLexed(s: P.Statement, behind: string, copies: nat -> int, first: nat)
    requires Writable(s) && FitsBuffer(s)
    ensures TokensIn(LineText(s) + "\n" + behind, copies, first)
         == P.StatementTokens(s) + TokensIn(behind, copies, first + |P.StatementTokens(s)|)
  {
    hide Writable, LineText, P.StatementOk, P.StatementTokens, Lexemes, TokensOf, TokensIn, Chunk, Words;
    var line := LineText(s) + "\n";
    LineHasNoNewline(s);
    ChunkIsLine(LineText(s), behind, BUFFER_SIZE - 1);
    LineStep(line + behind, copies, first, line);
    LineLexemes(s);
    LineTokens(s, copies, first);
    assert (line + behind)[|line|..] == behind;
  }

  /** Text and tokens of a program, by its first statement. */
  lemma ProgramBegins(ss: seq<P.Statement>, rest: string)
    requires forall s | s in ss :: Writable(s) && FitsBuffer(s)
    ensures if ss == [] then ProgramText(ss) + rest == rest && P.ProgramTokens(ss) == []
            else
              && Writable(ss[0]) && FitsBuffer(ss[0])
              && (forall s | s in ss[1..] :: Writable(s) && FitsBuffer(s))
              && ProgramText(ss) + rest == LineText(ss[0]) + "\n" + (ProgramText(ss[1..]) + rest)
              && P.ProgramTokens(ss) == P.StatementTokens(ss[0]) + P.ProgramTokens(ss[1..])
  {
    hide Writable, FitsBuffer, P.StatementOk, P.StatementTokens;
    if ss == [] {
      assert ProgramText(ss) + rest == rest;
    } else {
      assert ss[0] in ss && forall s | s in ss[1..] :: s in ss;
      Grouped(ss[0], ss, rest);
    }
  }

  lemma Grouped(s: P.Statement, ss: seq<P.Statement>, rest: string)
    requires ss != [] && s == ss[0] && Writable(s) && (forall t | t in ss :: Writable(t))
    ensures (forall t | t in ss[1..] :: Writable(t))
    ensures ProgramText(ss) + rest == LineText(s) + "\n" + (ProgramText(ss[1..]) + rest)
  {
    hide Writable, LineText, P.StatementOk;
    assert forall t | t in ss[1..] :: t in ss;
    var line, more := LineText(s) + "\n", ProgramText(ss[1..]);
    assert ProgramText(ss) == line + more;
    assert line + more + rest == line + (more + rest);
  }

  lemma TextTokens(ss: seq<P.Statement>, copies: nat -> int, first: nat)
    requires forall s | s in ss :: Writable(s) && FitsBuffer(s)
    ensures TokensIn(ProgramText(ss), copies, first) == P.ProgramTokens(ss)
  {
    hide TokensIn, P.ProgramTokens, ProgramText;
    TokensBefore(ss, "", copies, first);
    NoMoreTokens("", copies, first + |P.ProgramTokens(ss)|);
    assert ProgramText(ss) + "" == ProgramText(ss);
  }

  /** What the arena gives for a printed program. */
  function ProgramSize(ss: seq<P.Statement>, capacity: nat): nat
    requires forall s | s in ss :: Writable(s)
  {
    LexerSize(ProgramText(ss)) + StreamSize(|P.ProgramTokens(ss)| + 1) + Block(capacity * Parser.SIZEOF_LINE)
    + P.StatementsSize(ss)
  }

  /**
   Source-text round trip: a program printed one statement a line is read back as
   the lines it means if it has at most 255 tokens and fits the capacity and the
   arena, and makes the assembler exit otherwise.
   */
  lemma SourceRoundTrip(ss: seq<P.Statement>, copies: nat -> int, capacity: nat, free: nat)
    requires capacity > 0 && forall s | s in ss :: Writable(s) && FitsBuffer(s)
    ensures FrontEnd(ProgramText(ss), copies, capacity, free)
         == if |P.ProgramTokens(ss)| < INITIAL_TOKEN_CAPACITY && |ss| <= capacity && ProgramSize(ss, capacity) <= free
            then Ok(P.LinesMeant(ss)) else ExitOne
  {
    hide Writable, FitsBuffer, P.StatementOk, P.StatementsSize, P.ProgramTokens, LexerSize, StreamSize, TokensIn;
    hide Parser.LinesFrom, P.LinesMeant, ProgramText;
    TextTokens(ss, copies, 0);
    var left := free - LexerSize(ProgramText(ss)) - StreamSize(|P.ProgramTokens(ss)| + 1)
                - Block(capacity * Parser.SIZEOF_LINE);
    if left >= 0 {
      P.ReadStatements(ss, capacity, [], left);
    }
    assert [] + P.LinesMeant(ss) == P.LinesMeant(ss);
  }
}
