/** The front end as main runs it. */
module Assembler {
  import opened Arena
  import opened Tokens
  import opened TokenStreams
  import Lexer
  import Parser

  /** main's arena of 2 * MAX_ARENA_SIZE bytes, and the lines a program may have. */
  const ARENA_SIZE := 2 * 1024 * 1024
  const INITIAL_LINE_CAPACITY := 100

  /** run_lexer, build_token_stream and run_parser, one after the other, with `free` bytes in the arena. */
  function FrontEnd(text: string, copies: nat -> int, capacity: int, free: nat): Outcome<seq<Parser.Line>> {
    match Lexer.RunLexerOf(text, copies, free)
    case Failed => Failed
    case ExitOne => ExitOne
    case Crash => Crash
    case Ok(tokens) =>
      var used := Lexer.LexerSize(text) + StreamSize(|tokens|);
      if used > free then ExitOne else Parser.ProgramFrom(tokens, capacity, free - used)
  }

  method Assemble(arena: MemoryArena, text: string, copies: nat -> int, program: Parser.Program)
    returns (r: Outcome<()>)
    requires arena.Valid() && -0x8000_0000 <= program.capacity < 0x8000_0000
    modifies arena, arena.buffer, program`lines, program`count
    ensures match FrontEnd(text, copies, program.capacity, old(arena.Free()))
            case Ok(lines) => r == Ok(()) && program.lines != null && program.count == |lines| <= program.lines.Length
                              && program.lines[..program.count] == lines
            case Failed => r == Failed
            case ExitOne => r == ExitOne
            case Crash => r == Crash
  {
    hide MemoryArena.Valid, Lexer.LexerSize, Lexer.TokensIn, Parser.ProgramFrom, TokenStream.Valid, StreamSize;
    var tokens, totalCount := Lexer.RunLexer(arena, text, copies);
    if !tokens.Ok? {
      return ExitOne;
    }
    var exited, stream := BuildTokenStream(arena, tokens.value, totalCount);
    if exited {
      return ExitOne;
    }
    r := program.Parse(arena, stream);
  }
}
