/** Text to lexemes, lexemes to tokens: getLexemesInLine, lexer and run_lexer. */
module Lexer {
  import opened Arena
  import opened Tokens

  const MAX_LEXEMES := 100
  const SIZEOF_POINTER := 8
  const SIZEOF_TOKEN := 32
  const SIZEOF_TOKEN_VECTOR := 16
  const MAX_SEPARATORS := 10
  const BUFFER_SIZE := 1024
  const INITIAL_TOKEN_CAPACITY := 256
  const UINT32_MAX := 0xFFFF_FFFF
  const LLONG_MAX := 0x7FFF_FFFF_FFFF_FFFF

  // ---- getLexemesInLine ----

  predicate Skipped(c: char) {
    IsSpace(c) && c != '\n'
  }

  predicate InWord(c: char) {
    c != '\0' && !IsSpace(c) && c != ','
  }

  function SkipSpace(s: string): (r: string)
    ensures r == "" || !Skipped(r[0])
  {
    if s != "" && Skipped(s[0]) then SkipSpace(s[1..]) else s
  }

  /** How far the lexeme reaches that `s` starts with. */
  function WordLength(s: string): (n: nat)
    ensures n <= |s|
    ensures forall i | 0 <= i < n :: InWord(s[i])
    ensures n < |s| ==> !InWord(s[n])
  {
    if s != "" && InWord(s[0]) then 1 + WordLength(s[1..]) else 0
  }

  predicate IsSeparator(c: char) {
    c == ',' || c == '\n'
  }

  /** Where reading the line stops: its end or a comment. */
  predicate Stops(s: string) {
    s == "" || s[0] == '\0' || s[0] == ';' || s[0] == '#'
  }

  /** The lexemes of what is left of a line, `count` of which are stored already. */
  function Lexemes(s: string, count: nat): seq<string>
    decreases |s|
  {
    if s != "" && Skipped(s[0]) then Lexemes(s[1..], count)
    else if Stops(s) then []
    else if IsSeparator(s[0]) then
      if count <= MAX_SEPARATORS then [[s[0]]] + Lexemes(s[1..], count + 1) else []
    else
      var n := WordLength(s);
      if count < MAX_LEXEMES then [s[..n]] + Lexemes(s[n..], count + 1) else []
  }

  lemma {:induction false} SkippingLosesNothing(s: string, count: nat)
    ensures Lexemes(SkipSpace(s), count) == Lexemes(s, count)
  {
    if s != "" && Skipped(s[0]) {
      SkippingLosesNothing(s[1..], count);
    }
  }

  lemma SkipStep(s: string, count: nat)
    requires s != "" && Skipped(s[0])
    ensures Lexemes(s, count) == Lexemes(s[1..], count)
  {
  }

  lemma StopStep(s: string, count: nat)
    requires Stops(s)
    ensures Lexemes(s, count) == []
  {
  }

  lemma SeparatorStep(s: string, count: nat)
    requires s != "" && IsSeparator(s[0])
    ensures Lexemes(s, count) == if count <= MAX_SEPARATORS then [[s[0]]] + Lexemes(s[1..], count + 1) else []
  {
  }

  lemma WordStep(s: string, count: nat, n: nat)
    requires !Stops(s) && n == WordLength(s) > 0
    ensures Lexemes(s, count) == if count < MAX_LEXEMES then [s[..n]] + Lexemes(s[n..], count + 1) else []
  {
    assert InWord(s[0]);
  }

  /** Step 1 of the loop of getLexemesInLine. */
  method SkipLeading(line: string, from: nat) returns (current: nat)
    requires from <= |line|
    ensures from <= current <= |line| && line[current..] == SkipSpace(line[from..])
  {
    current := from;
    while CharAt(line, current) != '\n' && IsSpace(CharAt(line, current))
      invariant from <= current <= |line| && SkipSpace(line[current..]) == SkipSpace(line[from..])
      decreases |line| - current
    {
      current := current + 1;
    }
    assert CharAt(line, current) == CharAt(line[current..], 0);
  }

  /** The inner loop of its step 4. */
  method FindEnd(line: string, start: nat) returns (current: nat)
    requires start <= |line|
    ensures start <= current <= |line| && current - start == WordLength(line[start..])
  {
    current := start;
    while InWord(CharAt(line, current))
      invariant start <= current <= |line|
      invariant WordLength(line[start..]) == current - start + WordLength(line[current..])
      decreases |line| - current
    {
      current := current + 1;
    }
    assert CharAt(line, current) == CharAt(line[current..], 0);
  }

  // what the arena gives for the lexemes of a line: an array of pointers and a copy of each lexeme

  function StoredSize(lexemes: seq<string>): nat {
    if lexemes == [] then 0 else CopySize(lexemes[0]) + StoredSize(lexemes[1..])
  }

  function LineSize(lexemes: seq<string>): nat {
    Block(MAX_LEXEMES * SIZEOF_POINTER) + StoredSize(lexemes)
  }

  lemma {:induction false} StoredSizeConcat(s: seq<string>, t: seq<string>)
    ensures StoredSize(s + t) == StoredSize(s) + StoredSize(t)
  {
    if s == [] {
      assert s + t == t;
    } else {
      assert (s + t)[1..] == s[1..] + t;
      StoredSizeConcat(s[1..], t);
    }
  }

  lemma StoredNext(stored: seq<string>, next: string, rest: seq<string>)
    ensures StoredSize(stored + [next]) == StoredSize(stored) + CopySize(next)
    ensures StoredSize(stored + [next] + rest) >= StoredSize(stored + [next])
  {
    StoredSizeConcat(stored + [next], rest);
    StoredSizeConcat(stored, [next]);
    assert [next][1..] == [];
  }

  /** Copy a lexeme behind those `stored`; `exited` where the arena is exhausted. */
  method Store(arena: MemoryArena, lexemes: array<string>, count: nat, lexeme: string,
               ghost stored: seq<string>, ghost rest: seq<string>)
    returns (exited: bool, count': nat, ghost stored': seq<string>)
    requires arena.Valid() && count < lexemes.Length && lexemes[..count] == stored
    modifies lexemes, arena, arena.buffer
    ensures arena.Valid() && stored' == stored + [lexeme]
    ensures if exited then count' == count && LineSize(stored' + rest) > LineSize(stored) + old(arena.Free())
            else count' == count + 1 && lexemes[..count'] == stored'
                 && arena.Free() + LineSize(stored') == old(arena.Free()) + LineSize(stored)
  {
    hide MemoryArena.Valid, StoredSize;
    StoredNext(stored, lexeme, rest);
    stored' := stored + [lexeme];
    var ok := arena.Reserve(|lexeme| + 1);
    if !ok {
      return true, count, stored';
    }
    lexemes[count] := lexeme;
    exited, count' := false, count + 1;
  }

  /** With the line read up to `current`, `stored` are the first of its lexemes. */
  ghost predicate ReadTo(line: string, current: nat, count: nat, stored: seq<string>)
    requires current <= |line|
  {
    stored + Lexemes(line[current..], count) == Lexemes(line, 0)
  }

  lemma NothingRead(line: string)
    ensures ReadTo(line, 0, 0, [])
  {
    assert line[0..] == line;
  }

  lemma SpaceRead(line: string, from: nat, current: nat, count: nat, stored: seq<string>)
    requires from <= current <= |line| && line[current..] == SkipSpace(line[from..])
    requires ReadTo(line, from, count, stored)
    ensures ReadTo(line, current, count, stored)
  {
    SkippingLosesNothing(line[from..], count);
  }

  lemma AllRead(line: string, current: nat, count: nat, stored: seq<string>)
    requires current <= |line| && CharAt(line, current) in "\0;#" && ReadTo(line, current, count, stored)
    ensures stored == Lexemes(line, 0)
  {
    assert CharAt(line, current) == CharAt(line[current..], 0);
    StopStep(line[current..], count);
  }

  /** The lexeme of `n` characters at `current` is the next one, or there is no room for it. */
  lemma LexemeRead(line: string, current: nat, n: nat, count: nat, stored: seq<string>)
    returns (rest: seq<string>)
    requires current + n <= |line| && ReadTo(line, current, count, stored)
    requires (n == 1 && IsSeparator(line[current])) || (!Stops(line[current..]) && n == WordLength(line[current..]) > 0)
    ensures if count <= (if IsSeparator(line[current]) then MAX_SEPARATORS else MAX_LEXEMES - 1)
            then var more := stored + [line[current..current + n]];
                 Lexemes(line, 0) == more + rest && ReadTo(line, current + n, count + 1, more)
            else stored == Lexemes(line, 0)
  {
    hide Lexemes, WordLength;
    var left := line[current..];
    assert left[..n] == line[current..current + n] && left[n..] == line[current + n..];
    var next := left[..n];
    rest := Lexemes(left[n..], count + 1);
    assert stored + ([next] + rest) == stored + [next] + rest;
    if IsSeparator(line[current]) {
      SeparatorStep(left, count);
      assert left[..1] == [left[0]];
    } else {
      WordStep(left, count, n);
    }
  }

  method GetLexemesInLine(arena: MemoryArena, line: string) returns (exited: bool, lexemes: array<string>, count: nat)
    requires arena.Valid()
    modifies arena, arena.buffer
    ensures arena.Valid() && fresh(lexemes) && count <= lexemes.Length == MAX_LEXEMES
    ensures exited == (LineSize(Lexemes(line, 0)) > old(arena.Free()))
    ensures !exited ==> lexemes[..count] == Lexemes(line, 0)
                        && arena.Free() == old(arena.Free()) - LineSize(Lexemes(line, 0))
  {
    hide Lexemes, SkipSpace, WordLength, MemoryArena.Valid, MemoryArena.Free, LineSize, ReadTo, CopySize, Block;
    lexemes := new string[MAX_LEXEMES];
    count := 0;
    NothingStored();
    var ok := arena.Reserve(MAX_LEXEMES * SIZEOF_POINTER);
    if !ok {
      return true, lexemes, 0;
    }
    var current := 0;
    NothingRead(line);
    ghost var stored: seq<string>, rest: seq<string> := [], [];
    while CharAt(line, current) != '\0'
      invariant current <= |line| && count <= MAX_LEXEMES && arena.Valid()
      invariant lexemes[..count] == stored && arena.Free() + LineSize(stored) == old(arena.Free())
      invariant ReadTo(line, current, count, stored)
      decreases |line| - current
    {
      ghost var from := current;
      current := SkipLeading(line, current);
      SpaceRead(line, from, current, count, stored);
      var c := CharAt(line, current);
      if c == '\0' || c == '\r' {
        AllRead(line, current, count, stored);
        break;
      }
      if c == ';' || c == '#' {
        AllRead(line, current, count, stored);
        break;
      }
      if c == ',' || c == '\n' {
        rest := LexemeRead(line, current, 1, count, stored);
        assert line[current..current + 1] == [c];
        if count <= MAX_SEPARATORS {
          exited, count, stored := Store(arena, lexemes, count, [c], stored, rest);
          if exited {
            return;
          }
        } else {
          break;
        }
        current := current + 1;
        continue;
      }
      var start := current;
      current := FindEnd(line, start);
      var len := current - start;
      if len > 0 {
        rest := LexemeRead(line, start, len, count, stored);
        if count < MAX_LEXEMES {
          exited, count, stored := Store(arena, lexemes, count, line[start..current], stored, rest);
          if exited {
            return;
          }
        } else {
          break;
        }
      }
    }
    if stored != Lexemes(line, 0) {
      AllRead(line, current, count, stored);
    }
    exited := false;
  }

  lemma NothingStored()
    ensures LineSize([]) == Block(MAX_LEXEMES * SIZEOF_POINTER)
    ensures forall lexemes :: LineSize(lexemes) >= Block(MAX_LEXEMES * SIZEOF_POINTER)
  {
  }

  // ---- lexer ----

  /** The value of a digit, 99 for what is none. */
  function DigitValue(c: char): (d: nat)
    ensures IsDigit(c) <==> d < 10
  {
    if IsDigit(c) then c as int - '0' as int
    else if IsAlpha(c) then ToLower(c) as int - 'a' as int + 10
    else 99
  }

  /** The number written by the leading digits of `s`, behind digits that are worth `acc`. */
  function Magnitude(s: string, base: nat, acc: nat): nat {
    if s == "" || DigitValue(s[0]) >= base then acc else Magnitude(s[1..], base, acc * base + DigitValue(s[0]))
  }

  function Saturated(v: int): int {
    if v > LLONG_MAX then LLONG_MAX else if v < -LLONG_MAX - 1 then -LLONG_MAX - 1 else v
  }

  /** strtoll on strings that start with a digit or a minus sign. */
  function Strtoll(s: string, base: nat): int {
    var negative := CharAt(s, 0) == '-';
    var digits := if negative then s[1..] else s;
    var body := if base == 16 && |digits| > 2 && digits[0] == '0' && digits[1] == 'x' && DigitValue(digits[2]) < 16
                then digits[2..] else digits;
    var magnitude: int := Magnitude(body, base, 0);
    Saturated(if negative then -magnitude else magnitude)
  }

  function Clamped(v: int): int {
    if v > UINT32_MAX then UINT32_MAX else v
  }

  predicate IsName(lexeme: string) {
    IsIdentStart(CharAt(lexeme, 0)) && CharAt(lexeme, 0) != 'R' && !IsDigit(CharAt(lexeme, 1))
  }

  predicate IsHex(lexeme: string) {
    CharAt(lexeme, 0) == '0' && CharAt(lexeme, 1) == 'x' && IsDigit(CharAt(lexeme, 2))
  }

  predicate IsNumber(lexeme: string) {
    IsDigit(CharAt(lexeme, 0)) || (CharAt(lexeme, 0) == '-' && IsDigit(CharAt(lexeme, 1))) || IsHex(lexeme)
  }

  predicate IsCharacter(lexeme: string) {
    |lexeme| == 3 && lexeme[0] == '\'' && lexeme[2] == '\''
  }

  predicate IsQuoted(lexeme: string) {
    |lexeme| >= 2 && lexeme[0] == '"' && lexeme[|lexeme| - 1] == '"'
  }

  predicate IsDirective(lexeme: string) {
    CharAt(lexeme, 0) == '.' && CharAt(lexeme, 1) != '\0' && |lexeme| > 3
  }

  /** The token of a lexeme; `copy` is the address of the copy made of a string literal. */
  function TokenOf(lexeme: string, copy: int): Token {
    if lexeme == "" then ZERO_TOKEN
    else if IsName(lexeme) then Token(Identifier, 0, 0, Lower(lexeme))
    else if lexeme in REGISTERS then Token(Register, Lookup(REGISTERS, lexeme), 0, "")
    else if IsNumber(lexeme) then Token(Literal, 0, Clamped(Strtoll(lexeme, if IsHex(lexeme) then 16 else 10)), "")
    else if IsCharacter(lexeme) then Token(Literal, 0, lexeme[1] as int % 256, "")
    else if IsQuoted(lexeme) then Token(Literal, 0, copy, lexeme[1..|lexeme| - 1])
    else if lexeme == "," then COMMA_TOKEN
    else if lexeme == "\n" then EOL_TOKEN
    else if IsDirective(lexeme) then Token(Directive, Lookup(DIRECTIVES, lexeme), 0, "")
    else ZERO_TOKEN
  }

  /** The tokens of lexemes, the first of which is lexeme number `first` of the file. */
  function TokensOf(lexemes: seq<string>, copies: nat -> int, first: nat): (r: seq<Token>)
    ensures |r| == |lexemes|
  {
    seq(|lexemes|, i requires 0 <= i < |lexemes| => TokenOf(lexemes[i], copies(first + i)))
  }

  /** normalize_input */
  method NormalizeInput(s: array<char>)
    modifies s
    ensures s[..] == Lower(old(s[..]))
  {
    for i := 0 to s.Length
      invariant forall k | 0 <= k < i :: s[k] == ToLower(old(s[k]))
      invariant forall k | i <= k < s.Length :: s[k] == old(s[k])
    {
      s[i] := ToLower(s[i]);
    }
  }

  // what the arena gives for the tokens of a line: an array, and a copy of each name, directive and string

  function TokenSize(lexeme: string): nat {
    if IsName(lexeme) then CopySize(lexeme)
    else if lexeme in REGISTERS || IsNumber(lexeme) || IsCharacter(lexeme) then 0
    else if IsQuoted(lexeme) then Block(|lexeme| - 1)
    else if IsDirective(lexeme) then CopySize(lexeme)
    else 0
  }

  function TokenSizes(lexemes: seq<string>): nat {
    if lexemes == [] then 0 else TokenSize(lexemes[0]) + TokenSizes(lexemes[1..])
  }

  function TokensSize(lexemes: seq<string>): nat {
    if lexemes == [] then 0 else Block(|lexemes| * SIZEOF_TOKEN) + TokenSizes(lexemes)
  }

  /** arena_strdup followed by normalize_input; `exited` where the arena is exhausted. */
  method NormalizedCopy(arena: MemoryArena, s: string) returns (exited: bool, r: string)
    requires arena.Valid()
    modifies arena, arena.buffer
    ensures arena.Valid() && exited == (CopySize(s) > old(arena.Free()))
    ensures !exited ==> r == Lower(s) && arena.Free() == old(arena.Free()) - CopySize(s)
  {
    hide MemoryArena.Valid;
    var ok := arena.Reserve(|s| + 1);
    if !ok {
      return true, "";
    }
    var temp := new char[|s|](i requires 0 <= i < |s| => s[i]);
    assert temp[..] == s;
    NormalizeInput(temp);
    exited, r := false, temp[..];
  }

  /** The body of the loop of lexer. */
  method LexOne(arena: MemoryArena, lexeme: string, copy: int) returns (exited: bool, token: Token)
    requires arena.Valid()
    modifies arena, arena.buffer
    ensures arena.Valid() && exited == (TokenSize(lexeme) > old(arena.Free()))
    ensures !exited ==> token == TokenOf(lexeme, copy) && arena.Free() == old(arena.Free()) - TokenSize(lexeme)
  {
    hide MemoryArena.Valid, MemoryArena.Free, Strtoll, Lower, Lookup;
    exited, token := false, ZERO_TOKEN;
    if lexeme == "" {
      return;
    }
    var c0, c1, c2 := CharAt(lexeme, 0), CharAt(lexeme, 1), CharAt(lexeme, 2);
    var register := Find(REGISTERS, lexeme);
    if IsIdentStart(c0) && c0 != 'R' && !IsDigit(c1) && c0 != '.' {
      var temp;
      exited, temp := NormalizedCopy(arena, lexeme);
      token := token.(kind := Identifier, text := temp);
    } else if register != NOT_FOUND {
      token := token.(kind := Register, tag := register);
    } else {
      var isNegative := c0 == '-' && IsDigit(c1);
      var isHex := c0 == '0' && c1 == 'x' && IsDigit(c2);
      if IsDigit(c0) || isNegative || isHex {
        token := token.(kind := Literal);
        var value := Strtoll(lexeme, if isHex then 16 else 10);
        if value > UINT32_MAX {
          value := UINT32_MAX;
        }
        token := token.(val := value);
      } else if c0 == '\'' && c2 == '\'' && |lexeme| == 3 {
        token := token.(kind := Literal, val := lexeme[1] as int % 256);
      } else if c0 == '"' && lexeme[|lexeme| - 1] == '"' && |lexeme| >= 2 {
        var length := |lexeme| - 2;
        var ok := arena.Reserve(length + 1);
        exited := !ok;
        token := token.(kind := Literal, val := copy, text := lexeme[1..1 + length]);
      } else if lexeme == "," {
        token := token.(kind := Separator, tag := SEP_COMMA);
      } else if lexeme == "\n" {
        token := token.(kind := Separator, tag := SEP_EOL);
      } else if c0 == '.' && c1 != '\0' && |lexeme| > 3 {
        var directive := Find(DIRECTIVES, lexeme);
        var ok := arena.Reserve(|lexeme| + 1);
        exited := !ok;
        token := token.(kind := Directive, tag := directive);
      }
    }
  }

  /** lexer. For no lexemes the source returns a null pointer, which nobody reads. */
  method Lex(arena: MemoryArena, line: array<string>, count: nat, copies: nat -> int, first: nat)
    returns (exited: bool, tokens: array<Token>)
    requires arena.Valid() && count <= line.Length && count < 0x8000_0000
    modifies arena, arena.buffer
    ensures arena.Valid() && fresh(tokens) && exited == (TokensSize(old(line[..count])) > old(arena.Free()))
    ensures !exited ==> tokens[..] == TokensOf(old(line[..count]), copies, first)
                        && arena.Free() == old(arena.Free()) - TokensSize(old(line[..count]))
  {
    hide MemoryArena.Valid, TokenOf, TokenSize, TokenSizes;
    ghost var lexemes := line[..count];
    tokens := new Token[count](_ => ZERO_TOKEN);
    var reservation := arena.ReserveArray(count, SIZEOF_TOKEN);
    if reservation == Null {
      return false, tokens;
    }
    if reservation == Exits {
      return true, tokens;
    }
    NoTokenSizes();
    for i := 0 to count
      invariant arena.Valid() && line[..count] == lexemes
      invariant forall k | 0 <= k < i :: tokens[k] == TokenOf(lexemes[k], copies(first + k))
      invariant arena.Free() + Block(count * SIZEOF_TOKEN) + TokenSizes(lexemes[..i]) == old(arena.Free())
    {
      TokenSizesNext(lexemes, i);
      var token;
      exited, token := LexOne(arena, line[i], copies(first + i));
      if exited {
        return;
      }
      tokens[i] := token;
    }
    assert lexemes[..count] == lexemes;
    exited := false;
  }

  lemma NoTokenSizes()
    ensures TokenSizes([]) == 0
  {
    hide TokenSize;
  }

  lemma {:induction false} TokenSizesConcat(s: seq<string>, t: seq<string>)
    ensures TokenSizes(s + t) == TokenSizes(s) + TokenSizes(t)
  {
    hide TokenSize;
    if s == [] {
      assert s + t == t;
    } else {
      assert (s + t)[1..] == s[1..] + t;
      TokenSizesConcat(s[1..], t);
    }
  }

  lemma TokenSizesOne(lexeme: string)
    ensures TokenSizes([lexeme]) == TokenSize(lexeme)
  {
    hide TokenSize;
  }

  lemma TokenSizesNext(lexemes: seq<string>, i: nat)
    requires i < |lexemes|
    ensures TokenSizes(lexemes[..i + 1]) == TokenSizes(lexemes[..i]) + TokenSize(lexemes[i])
    ensures TokenSizes(lexemes) >= TokenSizes(lexemes[..i + 1])
  {
    hide TokenSize, TokenSizes;
    assert lexemes[..i + 1] == lexemes[..i] + [lexemes[i]];
    TokenSizesConcat(lexemes[..i], [lexemes[i]]);
    TokenSizesOne(lexemes[i]);
    assert lexemes == lexemes[..i + 1] + lexemes[i + 1..];
    TokenSizesConcat(lexemes[..i + 1], lexemes[i + 1..]);
  }

  // ---- run_lexer ----

  /** What fgets reads: up to 1023 characters, and no further than a newline. */
  function Chunk(text: string, room: nat): (r: string)
    ensures r <= text && (text != "" && room > 0 ==> r != "")
    decreases room
  {
    if text == "" || room == 0 then ""
    else if text[0] == '\n' then "\n"
    else [text[0]] + Chunk(text[1..], room - 1)
  }

  /** All the tokens of a text, the first of which is lexeme number `first` of the file. */
  function TokensIn(text: string, copies: nat -> int, first: nat): seq<Token>
    decreases |text|
  {
    if text == "" then [] else
      var line := Chunk(text, BUFFER_SIZE - 1);
      var tokens := TokensOf(Lexemes(line, 0), copies, first);
      tokens + TokensIn(text[|line|..], copies, first + |tokens|)
  }

  lemma LineStep(text: string, copies: nat -> int, first: nat, line: string)
    requires text != "" && line == Chunk(text, BUFFER_SIZE - 1)
    ensures var tokens := TokensOf(Lexemes(line, 0), copies, first);
            TokensIn(text, copies, first) == tokens + TokensIn(text[|line|..], copies, first + |tokens|)
  {
    hide TokensOf, Lexemes, Chunk;
  }

  lemma NoMoreTokens(text: string, copies: nat -> int, first: nat)
    requires text == ""
    ensures TokensIn(text, copies, first) == [] && TextSize(text) == 0
  {
  }

  /** What the arena gives for the lines of a text. */
  function TextSize(text: string): nat
    decreases |text|
  {
    if text == "" then 0 else
      var line := Chunk(text, BUFFER_SIZE - 1);
      LineSize(Lexemes(line, 0)) + TokensSize(Lexemes(line, 0)) + TextSize(text[|line|..])
  }

  lemma TextSizeStep(text: string, line: string)
    requires text != "" && line == Chunk(text, BUFFER_SIZE - 1)
    ensures TextSize(text)
         == LineSize(Lexemes(line, 0)) + TokensSize(Lexemes(line, 0)) + TextSize(text[|line|..])
  {
    hide Lexemes, Chunk, LineSize, TokensSize;
  }

  const VECTOR_SIZE := Block(SIZEOF_TOKEN_VECTOR) + Block(INITIAL_TOKEN_CAPACITY * SIZEOF_TOKEN)
  const EOF_SIZE := CopySize("EOF")

  /** What run_lexer needs: the token vector, the lines and the lexeme of TOK_EOF. */
  function LexerSize(text: string): nat {
    VECTOR_SIZE + TextSize(text) + EOF_SIZE
  }

  /** The token vector holds 256 tokens, the last of which must be TOK_EOF: growing it exits. */
  function RunLexerOf(text: string, copies: nat -> int, free: nat): Outcome<seq<Token>> {
    var tokens := TokensIn(text, copies, 0);
    if |tokens| >= INITIAL_TOKEN_CAPACITY || LexerSize(text) > free then ExitOne else Ok(tokens + [EOF_TOKEN])
  }

  /** The loop of run_lexer over the tokens of one line; where the vector is full, arena_realloc exits. */
  method Append(items: array<Token>, totalCount: nat, tokensInLine: array<Token>)
    returns (exited: bool, totalCount': nat)
    requires totalCount <= items.Length && items != tokensInLine
    modifies items
    ensures exited <==> totalCount + tokensInLine.Length > items.Length
    ensures !exited ==> totalCount' == totalCount + tokensInLine.Length
                        && items[..totalCount'] == old(items[..totalCount]) + tokensInLine[..]
  {
    totalCount' := totalCount;
    for i := 0 to tokensInLine.Length
      invariant totalCount' == totalCount + i <= items.Length
      invariant items[..totalCount'] == old(items[..totalCount]) + tokensInLine[..i]
    {
      if totalCount' >= items.Length {
        return true, totalCount';
      }
      items[totalCount'] := tokensInLine[i];
      totalCount' := totalCount' + 1;
    }
    exited := false;
    assert tokensInLine[..tokensInLine.Length] == tokensInLine[..];
  }

  /** The body of the loop of run_lexer. */
  method LexLine(arena: MemoryArena, buffer: string, copies: nat -> int, items: array<Token>, totalCount: nat)
    returns (exited: bool, totalCount': nat)
    requires arena.Valid() && totalCount <= items.Length
    modifies arena, arena.buffer, items
    ensures arena.Valid()
    ensures var lexemes := Lexemes(buffer, 0);
            exited == (LineSize(lexemes) + TokensSize(lexemes) > old(arena.Free())
                       || totalCount + |lexemes| > items.Length)
    ensures var lexemes := Lexemes(buffer, 0);
            !exited ==> totalCount' == totalCount + |lexemes|
                        && items[..totalCount'] == old(items[..totalCount]) + TokensOf(lexemes, copies, totalCount)
                        && arena.Free() == old(arena.Free()) - LineSize(lexemes) - TokensSize(lexemes)
  {
    hide TokensOf, Lexemes, LineSize, TokensSize, MemoryArena.Valid;
    totalCount' := totalCount;
    var line, numLexemes, tokensInLine;
    exited, line, numLexemes := GetLexemesInLine(arena, buffer);
    if exited {
      return;
    }
    exited, tokensInLine := Lex(arena, line, numLexemes, copies, totalCount);
    if exited {
      return;
    }
    exited, totalCount' := Append(items, totalCount, tokensInLine);
  }

  /** The loop of run_lexer over the lines of the file. */
  method LexLines(arena: MemoryArena, text: string, copies: nat -> int, items: array<Token>)
    returns (exited: bool, totalCount: nat)
    requires arena.Valid()
    modifies arena, arena.buffer, items
    ensures arena.Valid()
    ensures exited == (TextSize(text) > old(arena.Free()) || |TokensIn(text, copies, 0)| > items.Length)
    ensures !exited ==> totalCount == |TokensIn(text, copies, 0)| && items[..totalCount] == TokensIn(text, copies, 0)
                        && arena.Free() == old(arena.Free()) - TextSize(text)
  {
    hide TokensOf, Lexemes, Chunk, TokensIn, LineSize, TokensSize, TextSize, MemoryArena.Valid;
    totalCount := 0;
    var position := 0;
    ghost var all := TokensIn(text, copies, 0);
    ghost var stored: seq<Token> := [];
    assert text[0..] == text;
    while position < |text|
      invariant position <= |text| && totalCount <= items.Length
      invariant arena.Valid() && old(arena.Free()) - arena.Free() + TextSize(text[position..]) == TextSize(text)
      invariant items[..totalCount] == stored
      invariant stored + TokensIn(text[position..], copies, totalCount) == all
      decreases |text| - position
    {
      var buffer := Chunk(text[position..], BUFFER_SIZE - 1);
      LineStep(text[position..], copies, totalCount, buffer);
      TextSizeStep(text[position..], buffer);
      ghost var rest, tokens := text[position..][|buffer|..], TokensOf(Lexemes(buffer, 0), copies, totalCount);
      position := position + |buffer|;
      assert rest == text[position..];
      assert |all| >= |stored| + |tokens|;
      var newCount;
      exited, newCount := LexLine(arena, buffer, copies, items, totalCount);
      if exited {
        return;
      }
      ghost var more := TokensIn(rest, copies, newCount);
      assert stored + (tokens + more) == (stored + tokens) + more;
      stored := stored + tokens;
      totalCount := newCount;
    }
    NoMoreTokens(text[position..], copies, totalCount);
    assert stored == all;
    exited := false;
  }

  method RunLexer(arena: MemoryArena, text: string, copies: nat -> int)
    returns (r: Outcome<array<Token>>, totalCount: nat)
    requires arena.Valid()
    modifies arena, arena.buffer
    ensures arena.Valid()
    ensures match RunLexerOf(text, copies, old(arena.Free()))
            case Ok(tokens) => r.Ok? && totalCount <= r.value.Length && r.value[..totalCount] == tokens
                               && arena.Free() == old(arena.Free()) - LexerSize(text)
            case _ => r == ExitOne
  {
    hide TokensIn, TextSize, MemoryArena.Valid;
    totalCount := 0;
    var ok := arena.Reserve(SIZEOF_TOKEN_VECTOR);
    if !ok {
      return ExitOne, 0;
    }
    var reservation := arena.ReserveArray(INITIAL_TOKEN_CAPACITY, SIZEOF_TOKEN);
    if reservation != Reserved {
      return ExitOne, 0;
    }
    var items := new Token[INITIAL_TOKEN_CAPACITY](_ => ZERO_TOKEN);
    var exited;
    exited, totalCount := LexLines(arena, text, copies, items);
    if exited || totalCount >= items.Length {
      return ExitOne, totalCount;
    }
    ok := arena.Reserve(|"EOF"| + 1);
    if !ok {
      return ExitOne, totalCount;
    }
    items[totalCount] := EOF_TOKEN;
    totalCount := totalCount + 1;
    r := Ok(items);
  }
}
