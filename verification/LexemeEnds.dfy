/** Where lexemes begin and end, character by character, and how many a line can have. */
module LexemeEnds {
  import opened Arena
  import opened Lexer
  import opened LexemeTheorems
  import opened ParserTheorems
  import opened SourceText
  import opened Tokens
  import Assembler
  import Parser

  /** The end of the string, the comma and the six characters of white space. */
  predicate Ends(c: char) {
    c == '\0' || c == ',' || c == ' ' || c == '\t' || c == '\n' || c == '\U{B}' || c == '\U{C}' || c == '\r'
  }

  predicate NoneEnds(x: string) {
    forall i | 0 <= i < |x| :: !Ends(x[i])
  }

  /** Nothing but these eight ends a lexeme, and each of them does; a semicolon or a number sign does not. */
  lemma LexemeReachesTo(x: string, rest: string, count: nat)
    requires x != "" && x[0] != ';' && x[0] != '#' && NoneEnds(x)
    requires (rest == "" || Ends(rest[0])) && count < 100
    ensures Lexemes(x + rest, count) == [x] + Lexemes(rest, count + 1)
  {
    hide Lexemes;
    ReadWord(x, rest, count);
  }

  lemma LexemeOfALine(x: string)
    requires x != "" && x[0] != ';' && x[0] != '#' && NoneEnds(x)
    ensures Lexemes(x + "\n", 0) == [x, "\n"]
  {
    hide Lexemes;
    LexemeReachesTo(x, "\n", 0);
    ReadSeparator("\n", "", 1);
    StopStep("", 2);
    assert "\n" + "" == "\n";
  }

  /** White space in front of a lexeme is skipped, the newline excepted, which is a lexeme, like the comma. */
  lemma WhatStartsALine(c: char, s: string, count: nat)
    requires count <= 10
    ensures c in {' ', '\t', '\U{B}', '\U{C}', '\r'} ==> Lexemes([c] + s, count) == Lexemes(s, count)
    ensures c in {',', '\n'} ==> Lexemes([c] + s, count) == [[c]] + Lexemes(s, count + 1)
    ensures c in {'\0', ';', '#'} ==> Lexemes([c] + s, count) == []
  {
    assert ([c] + s)[1..] == s;
  }

  // ---- comments ----

  lemma {:induction false} WordBefore(s: string, t: string)
    requires t != "" && !InWord(t[0])
    ensures WordLength(s + t) == WordLength(s)
  {
    if s == "" {
      assert s + t == t;
    } else {
      assert (s + t)[1..] == s[1..] + t;
      if InWord(s[0]) {
        WordBefore(s[1..], t);
      }
    }
  }

  /** A comment that does not touch a lexeme is as good as the end of the line. */
  lemma {:induction false} CommentsIgnored(s: string, marker: char, comment: string, count: nat)
    requires marker == ';' || marker == '#'
    ensures Lexemes(s + (" " + [marker] + comment), count) == Lexemes(s, count)
    decreases |s|
  {
    hide Lexemes, WordLength, Stops;
    var c := " " + [marker] + comment;
    var t := s + c;
    if s == "" {
      assert t == c;
      OnlyComment(marker, comment, count);
      StopsAtTheEnd();
      StopStep(s, count);
    } else if Skipped(s[0]) {
      Tails(s, c, 1);
      SkipStep(s, count);
      SkipStep(t, count);
      CommentsIgnored(s[1..], marker, comment, count);
    } else if Stops(s) {
      StopsBefore(s, c);
      StopStep(s, count);
      StopStep(t, count);
    } else if IsSeparator(s[0]) {
      Tails(s, c, 1);
      SeparatorStep(s, count);
      SeparatorStep(t, count);
      CommentsIgnored(s[1..], marker, comment, count + 1);
    } else {
      var n := WordLength(s);
      StopsBefore(s, c);
      WordBefore(s, c);
      WordStarts(s);
      Tails(s, c, n);
      WordStep(s, count, n);
      WordStep(t, count, n);
      CommentsIgnored(s[n..], marker, comment, count + 1);
    }
  }

  lemma Tails(s: string, c: string, n: nat)
    requires n <= |s|
    ensures (s + c)[..n] == s[..n] && (s + c)[n..] == s[n..] + c
  {
  }

  lemma StopsAtTheEnd()
    ensures Stops("")
  {
  }

  lemma StopsBefore(s: string, c: string)
    requires s != ""
    ensures Stops(s + c) == Stops(s)
  {
  }

  lemma WordStarts(s: string)
    requires s != "" && !Stops(s) && !Skipped(s[0]) && !IsSeparator(s[0])
    ensures WordLength(s) > 0
  {
  }

  lemma OnlyComment(marker: char, comment: string, count: nat)
    requires marker == ';' || marker == '#'
    ensures Lexemes(" " + [marker] + comment, count) == []
  {
    hide Lexemes;
    var s := [marker] + comment;
    assert " " + [marker] + comment == " " + s;
    ReadBlank(s, count);
    StopStep(s, count);
  }

  // ---- how many ----

  function Repeated(s: string, n: nat): string {
    if n == 0 then "" else s + Repeated(s, n - 1)
  }

  /** Of separators, those up to the eleventh lexeme of a line are stored. */
  lemma {:induction false} SeparatorLimit(c: char, n: nat, count: nat)
    requires (c == ',' || c == '\n') && count <= 11
    ensures |Lexemes(Repeated([c], n), count)| == if n <= 11 - count then n else 11 - count
    decreases n
  {
    hide Lexemes;
    if n == 0 {
      StopStep("", count);
    } else {
      var rest := Repeated([c], n - 1);
      assert ([c] + rest)[1..] == rest;
      SeparatorStep([c] + rest, count);
      if count <= 10 {
        SeparatorLimit(c, n - 1, count + 1);
      }
    }
  }

  /** Of words, the first hundred. */
  lemma {:induction false} WordLimit(x: string, n: nat, count: nat)
    requires x != "" && x[0] != ';' && x[0] != '#' && NoneEnds(x) && count <= 100
    ensures |Lexemes(Repeated(x + " ", n), count)| == if n <= 100 - count then n else 100 - count
    decreases n
  {
    hide Lexemes, Repeated;
    RepeatedSteps(x, n);
    if n == 0 {
      StopStep("", count);
    } else if count == 100 {
      NoRoom(x + (" " + Repeated(x + " ", n - 1)), count);
    } else {
      var rest := Repeated(x + " ", n - 1);
      LexemeReachesTo(x, " " + rest, count);
      ReadBlank(rest, count + 1);
      WordLimit(x, n - 1, count + 1);
    }
  }

  lemma RepeatedSteps(x: string, n: nat)
    ensures Repeated(x + " ", n) == if n == 0 then "" else x + (" " + Repeated(x + " ", n - 1))
  {
    if n > 0 {
      assert x + " " + Repeated(x + " ", n - 1) == x + (" " + Repeated(x + " ", n - 1));
    }
  }

  lemma NoRoom(s: string, count: nat)
    requires s != "" && s[0] != ';' && s[0] != '#' && !Ends(s[0]) && count == 100
    ensures Lexemes(s, count) == []
  {
  }

  // ---- a comment that touches a lexeme ----

  /** The name that a comment without a blank in front of it makes of a lexeme. */
  predicate Glued(x: string) {
    && |x| < 1000 && NoneEnds(x) && x != "" && IsAlpha(x[0]) && x[0] != 'R'
    && (|x| > 1 ==> !IsDigit(x[1])) && (';' in x || '#' in x) && x[|x| - 1] != ':'
  }

  /** So `halt;done` is one name, which is no opcode, and makes the assembler exit whatever follows. */
  lemma GluedCommentExits(x: string, after: string, copies: nat -> int, capacity: nat, free: nat)
    requires Glued(x) && capacity > 0
    ensures Assembler.FrontEnd(x + "\n" + after, copies, capacity, free) == ExitOne
  {
    hide TokensIn, TokenOf, Lexemes, LexerSize, TokenStreams.StreamSize, Parser.LinesFrom, NoneEnds;
    var text := x + "\n" + after;
    GluedToken(x, copies(0));
    SeparatorTokens(copies(1));
    LexemeOfALine(x);
    NoNewlineIn(x);
    ChunkIsLine(x, after, BUFFER_SIZE - 1);
    LineStep(text, copies, 0, x + "\n");
    var tokens := TokensIn(text, copies, 0) + [EOF_TOKEN];
    var used := LexerSize(text) + TokenStreams.StreamSize(|tokens|) + Block(capacity * Parser.SIZEOF_LINE);
    if used <= free {
      IdleTokensExit(tokens, capacity, [], free - used);
    }
  }

  lemma NoNewlineIn(x: string)
    requires NoneEnds(x)
    ensures '\n' !in x
  {
  }

  lemma GluedToken(x: string, copy: int)
    requires Glued(x)
    ensures Idle(TokenOf(x, copy)) && TokenOf(x, copy).kind == Identifier
  {
    hide NoneEnds, Lower, Lookup, Strtoll;
    NoMarkerInOpcodes(Lower(x));
    LowerKeepsMarkers(x);
  }

  lemma LowerKeepsMarkers(x: string)
    requires ';' in x || '#' in x
    ensures ';' in Lower(x) || '#' in Lower(x)
    ensures x[|x| - 1] != ':' ==> Lower(x)[|x| - 1] != ':'
  {
    var marker := if ';' in x then ';' else '#';
    var i :| 0 <= i < |x| && x[i] == marker;
    assert Lower(x)[i] == marker;
  }

  lemma NoMarkerInOpcodes(x: string)
    requires ';' in x || '#' in x
    ensures !IsOpcode(x)
  {
    hide Lookup;
    forall opcode: nat | opcode < |OPCODES| ensures OPCODES[opcode] != x {
      OpcodesAreSymbols(opcode);
    }
  }
}
