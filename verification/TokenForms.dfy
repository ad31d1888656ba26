/** What every form of lexeme becomes, by its characters. */
module TokenForms {
  import opened Lexer
  import opened SourceText
  import opened Tokens

  predicate Digit(c: char) { '0' <= c <= '9' }
  predicate Small(c: char) { 'a' <= c <= 'z' }
  predicate Capital(c: char) { 'A' <= c <= 'Z' }

  /** A name begins with a letter other than a capital R, or an underscore, and its second character is no digit. */
  predicate NameLike(s: string) {
    && s != "" && (Small(s[0]) || (Capital(s[0]) && s[0] != 'R') || s[0] == '_')
    && (|s| == 1 || !Digit(s[1]))
  }

  predicate LiteralLike(s: string) {
    && s != ""
    && (Digit(s[0])
        || (s[0] == '-' && |s| > 1 && Digit(s[1]))
        || (|s| == 3 && s[0] == '\'' && s[2] == '\'')
        || (|s| >= 2 && s[0] == '"' && s[|s| - 1] == '"'))
  }

  /** The kind of every lexeme's token. What is none of these is left a register. */
  lemma KindOf(s: string, copy: int)
    ensures TokenOf(s, copy).kind ==
            if NameLike(s) then Identifier
            else if LiteralLike(s) then Literal
            else if s == "," || s == "\n" then Separator
            else if |s| > 3 && s[0] == '.' && s[1] != '\0' then Directive
            else Register
  {
    hide Strtoll, Lower, Lookup;
  }

  // ---- names ----

  /** `t` is `s` with its capitals made small. */
  predicate InSmall(s: string, t: string) {
    |s| == |t| && forall i | 0 <= i < |s| ::
      if Capital(s[i]) then t[i] as int - 'a' as int == s[i] as int - 'A' as int else t[i] == s[i]
  }

  /** Names are read without regard to case; sp, bp and hp are names, not registers. */
  lemma NameToken(s: string, t: string, copy: int)
    requires NameLike(s) && InSmall(s, t)
    ensures TokenOf(s, copy) == Token(Identifier, 0, 0, t)
  {
    hide Lower;
    assert Lower(s) == t by {
      forall i | 0 <= i < |s| ensures Lower(s)[i] == t[i] {
        assert ToLower(s[i]) == t[i];
      }
    }
  }

  /** Registers are named r0 to r7. */
  lemma RegisterNames(d: nat, copy: int)
    requires d < 8
    ensures TokenOf(['r', "01234567"[d]], copy) == Token(Kind.Register, d, 0, "")
  {
    hide TokenOf;
    RegisterToken(d, copy);
    assert REGISTERS[d] == ['r', "01234567"[d]];
  }

  lemma StackRegistersAreNames(s: string, copy: int)
    requires s in {"sp", "bp", "hp"}
    ensures TokenOf(s, copy) == Token(Identifier, 0, 0, s)
  {
    NameToken(s, s, copy);
  }

  // ---- numbers ----

  const SMALL_DIGITS := "0123456789abcdef"
  const CAPITAL_DIGITS := "0123456789ABCDEF"

  lemma HexDigits(c: char, d: nat)
    requires d < 16
    ensures DigitValue(c) == d <==> c == SMALL_DIGITS[d] || c == CAPITAL_DIGITS[d]
  {
    if d < 10 {
      assert SMALL_DIGITS[d] as int == '0' as int + d && CAPITAL_DIGITS[d] == SMALL_DIGITS[d];
    } else {
      assert SMALL_DIGITS[d] as int == 'a' as int + d - 10 && CAPITAL_DIGITS[d] as int == 'A' as int + d - 10;
    }
  }

  /** A number ends at the first character that is no digit; what is behind it is dropped. */
  lemma NumberToken(negative: bool, ds: string, t: string, copy: int)
    requires AllDigits(ds) && (t == "" || !Digit(t[0]))
    requires !negative && ds == "0" ==> !(|t| > 1 && t[0] == 'x' && Digit(t[1]))
    ensures var worth: int := Worth(ds);
            var v := if negative then -worth else worth;
            TokenOf(Signed(negative, ds) + t, copy) ==
            Token(Literal, 0, if v > 0xFFFF_FFFF then 0xFFFF_FFFF
                              else if v < -0x8000_0000_0000_0000 then -0x8000_0000_0000_0000 else v, "")
  {
    hide Magnitude, Worth;
    var s := Signed(negative, ds) + t;
    var digits := ds + t;
    assert if negative then s[0] == '-' && s[1..] == digits && s[1] == ds[0] else s == digits && s[0] == ds[0];
    MagnitudeEnds(ds, t);
    NoRegister(s);
  }

  lemma MagnitudeEnds(ds: string, t: string)
    requires AllDigits(ds) && (t == "" || !Digit(t[0]))
    ensures Magnitude(ds + t, 10, 0) == Worth(ds)
  {
    hide Worth;
    MagnitudeIsWorth(ds);
    MagnitudeSplits(ds, t, 10, 0);
    if t != "" {
      assert DigitValue(t[0]) >= 10;
    }
  }

  lemma NoRegister(s: string)
    requires s != "" && (Digit(s[0]) || s[0] == '-')
    ensures s !in REGISTERS
  {
  }

  // ---- the others ----

  /** A quoted lexeme is a literal with the address of its copy, and the text between the quotes. */
  lemma QuotedToken(text: string, copy: int)
    ensures TokenOf("\"" + text + "\"", copy) == Token(Literal, 0, copy, text)
  {
    var s := "\"" + text + "\"";
    assert s[0] == '"' && s[|s| - 1] == '"' && s[1..|s| - 1] == text;
    if |s| == 3 {
      assert s[0] != '\'';
    }
    assert s !in REGISTERS;
  }

  /** The copies of quoted lexemes are numbered through the file, over its lines. */
  lemma QuotedTokenAt(lexemes: seq<string>, copies: nat -> int, first: nat, i: nat, text: string)
    requires i < |lexemes| && lexemes[i] == "\"" + text + "\""
    ensures TokensOf(lexemes, copies, first)[i] == Token(Literal, 0, copies(first + i), text)
  {
    hide TokenOf;
    QuotedToken(text, copies(first + i));
  }

  lemma SeparatorForms(copy: int)
    ensures TokenOf(",", copy) == Token(Kind.Separator, 0, 0, "")
    ensures TokenOf("\n", copy) == Token(Kind.Separator, 1, 0, "")
  {
    hide TokenOf;
    SeparatorTokens(copy);
  }

  /** A directive is known by its name as it is written, small letters only. */
  lemma DirectiveForms(s: string, copy: int)
    requires |s| > 3 && s[0] == '.' && s[1] != '\0'
    ensures TokenOf(s, copy) == Token(Directive, if s == ".start" then 0 else if s == ".data" then 1
                                                 else if s == ".rodata" then 2 else if s == ".global" then 3 else 255,
                                      0, "")
  {
    hide Lookup, TokenOf;
    DottedToken(s, copy);
    if s in DIRECTIVES {
      var d :| 0 <= d < |DIRECTIVES| && DIRECTIVES[d] == s;
      DirectivesDiffer(Lookup(DIRECTIVES, s), d);
    }
  }

  // ---- lines of the file ----

  /** A line of more than 1023 characters is read in pieces of 1023. */
  lemma {:induction false} LongLine(s: string, rest: string, room: nat)
    requires |s| == room && '\n' !in s
    ensures Chunk(s + rest, room) == s
    decreases room
  {
    if s != "" {
      assert (s + rest)[0] == s[0] && (s + rest)[1..] == s[1..] + rest;
      LongLine(s[1..], rest, room - 1);
      assert s == [s[0]] + s[1..];
    }
  }

  /** The last line needs no newline. */
  lemma {:induction false} LastLine(s: string, room: nat)
    requires |s| <= room && '\n' !in s
    ensures Chunk(s, room) == s
    decreases room
  {
    if s != "" {
      LastLine(s[1..], room - 1);
      assert s == [s[0]] + s[1..];
    }
  }

  lemma PiecesOfALine(s: string, rest: string, copies: nat -> int, first: nat)
    requires |s| == 1023 && '\n' !in s
    ensures var n := |Lexemes(s, 0)|;
            TokensIn(s + rest, copies, first) ==
            TokensOf(Lexemes(s, 0), copies, first) + TokensIn(rest, copies, first + n)
  {
    hide TokensIn, Lexemes, TokensOf;
    LongLine(s, rest, 1023);
    LineStep(s + rest, copies, first, s);
    assert (s + rest)[1023..] == rest;
  }
}
