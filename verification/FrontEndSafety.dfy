/** When the front end cannot read from a null pointer: no lexeme of the text is .rodata. */
module FrontEndSafety {
  import opened Arena
  import opened Lexer
  import opened Parser
  import opened TokenStreams
  import opened Tokens
  import Assembler
  import VmCore

  const RODATA := ".rodata"

  /** A token that is neither an empty name nor taken for a string literal without a string. */
  predicate Safe(t: Token) {
    && (t.kind == Identifier ==> t.text != "")
    && (t.kind != Register && t.kind != Identifier ==> t.tag != LIT_STRING)
  }

  predicate AllSafe(ts: seq<Token>) {
    forall t | t in ts :: Safe(t)
  }

  // ---- the tokens of the lexer ----

  lemma OnlyRodata(s: string)
    ensures Lookup(DIRECTIVES, s) == LIT_STRING ==> s == RODATA
  {
    hide Lookup;
  }

  lemma LowerKeepsLength(s: string)
    ensures |Lower(s)| == |s|
  {
  }

  lemma TokenSafe(s: string, copy: int)
    requires s != RODATA
    ensures Safe(TokenOf(s, copy))
  {
    hide Strtoll, Lookup, Lower;
    LowerKeepsLength(s);
    OnlyRodata(s);
  }

  lemma TokensSafe(lexemes: seq<string>, copies: nat -> int, first: nat)
    requires RODATA !in lexemes
    ensures AllSafe(TokensOf(lexemes, copies, first))
  {
    hide TokenOf, Safe;
    var ts := TokensOf(lexemes, copies, first);
    forall t | t in ts ensures Safe(t) {
      var i :| 0 <= i < |ts| && ts[i] == t;
      assert lexemes[i] in lexemes;
      TokenSafe(lexemes[i], copies(first + i));
    }
  }

  /** The lexemes of a text, line by line. */
  function TextLexemes(text: string): seq<string>
    decreases |text|
  {
    if text == "" then [] else
      var line := Chunk(text, BUFFER_SIZE - 1);
      Lexemes(line, 0) + TextLexemes(text[|line|..])
  }

  lemma {:induction false} TextSafe(text: string, copies: nat -> int, first: nat)
    requires RODATA !in TextLexemes(text)
    ensures AllSafe(TokensIn(text, copies, first))
    decreases |text|
  {
    hide TokensOf, Lexemes, Chunk, Safe;
    if text != "" {
      var line := Chunk(text, BUFFER_SIZE - 1);
      var lexemes := Lexemes(line, 0);
      TokensSafe(lexemes, copies, first);
      TextSafe(text[|line|..], copies, first + |lexemes|);
    }
  }

  // ---- the parser over such tokens ----

  lemma RestSafe(ts: seq<Token>)
    requires AllSafe(ts)
    ensures AllSafe(Rest(ts)) && AllSafe(SkipSeparator(ts)) && Safe(First(ts))
  {
    hide Safe;
    assert ts != [] ==> ts[0] in ts && forall t | t in ts[1..] :: t in ts;
    ZeroIsSafe();
  }

  lemma ZeroIsSafe()
    ensures Safe(ZERO_TOKEN)
  {
  }

  ghost predicate Harmless<T>(p: Parsed<T>) {
    p.result != Crash && AllSafe(p.rest)
  }

  lemma OperandSafe(ts: seq<Token>)
    requires AllSafe(ts)
    ensures Harmless(OperandFrom(ts))
  {
    hide AllSafe, First, Rest, SkipSeparator;
    RestSafe(ts);
    RestSafe(SkipSeparator(ts));
    NothingSafe();
  }

  lemma NothingSafe()
    ensures AllSafe([])
  {
  }

  lemma OperandsSafe(ts: seq<Token>, count: nat)
    requires AllSafe(ts)
    ensures Harmless(OperandsFrom(ts, count))
  {
    hide AllSafe, OperandFrom, SkipSeparator;
    OperandSafe(ts);
    var behind := OperandFrom(ts).rest;
    RestSafe(behind);
    OperandSafe(SkipSeparator(behind));
  }

  lemma InstructionSafe(ts: seq<Token>)
    requires AllSafe(ts)
    ensures Harmless(InstructionFrom(ts))
  {
    hide AllSafe, OperandsFrom, SkipSeparator, First, Rest, OpcodeLookup;
    RestSafe(ts);
    RestSafe(Rest(ts));
    if IsOpcode(First(ts).text) {
      OperandsSafe(SkipSeparator(Rest(ts)), VmCore.OperandCount(OpcodeLookup(First(ts).text)));
    }
  }

  lemma LineSafe(ts: seq<Token>)
    requires AllSafe(ts)
    ensures Harmless(LineFrom(ts))
  {
    hide AllSafe, InstructionFrom, First, Rest, IsLabel, IsOpcode;
    RestSafe(ts);
    InstructionSafe(ts);
  }

  lemma {:induction false} LinesSafe(ts: seq<Token>, capacity: nat, lines: seq<Line>, free: nat)
    requires AllSafe(ts) && |lines| <= capacity
    ensures LinesFrom(ts, capacity, lines, free) != Crash
    decreases |ts| + capacity - |lines|
  {
    hide AllSafe, LineFrom;
    LineSafe(ts);
    RestSafe(ts);
    if ts == [] {
    } else if ts[0].kind == Separator && ts[0].tag == SEP_EOL {
      LinesSafe(ts[1..], capacity, lines, free);
    } else if ts[0].kind != Eof && |lines| < capacity && LineFrom(ts).size <= free && LineFrom(ts).result.Ok? {
      var p := LineFrom(ts);
      LinesSafe(p.rest, capacity, lines + [p.result.value], free - p.size);
    }
  }

  /** Text none of whose lexemes is .rodata never makes the front end read from a null pointer. */
  lemma FrontEndIsSafe(text: string, copies: nat -> int, capacity: int, free: nat)
    requires RODATA !in TextLexemes(text)
    ensures Assembler.FrontEnd(text, copies, capacity, free) != Crash
  {
    hide TokensIn, LexerSize, StreamSize, LinesFrom, Safe;
    TextSafe(text, copies, 0);
    EofSafe();
    var tokens := TokensIn(text, copies, 0) + [EOF_TOKEN];
    assert AllSafe(tokens);
    var used := LexerSize(text) + StreamSize(|tokens|);
    if used <= free && capacity > 0 && Block(capacity * SIZEOF_LINE) <= free - used {
      LinesSafe(tokens, capacity, [], free - used - Block(capacity * SIZEOF_LINE));
    }
  }

  lemma EofSafe()
    ensures Safe(EOF_TOKEN)
  {
  }
}
