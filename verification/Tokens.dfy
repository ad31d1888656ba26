/** Characters, tokens and name tables of the assembler. */
module Tokens {

  /** How a call ends: with a value, with a negative status, in exit(1), or in an access through no valid pointer. */
  datatype Outcome<T> = Ok(value: T) | Failed | ExitOne | Crash

  // ---- the character classes of the C locale ----

  predicate IsDigit(c: char) {
    '0' <= c <= '9'
  }

  predicate IsAlpha(c: char) {
    'a' <= c <= 'z' || 'A' <= c <= 'Z'
  }

  /** Blank, and horizontal tab to carriage return. */
  predicate IsSpace(c: char) {
    c == ' ' || '\t' <= c <= '\r'
  }

  predicate IsIdentStart(c: char) {
    IsAlpha(c) || c == '_'
  }

  predicate IsIdentChar(c: char) {
    IsAlpha(c) || IsDigit(c) || c == '_'
  }

  function ToLower(c: char): char {
    if 'A' <= c <= 'Z' then (c as int + 32) as char else c
  }

  function Lower(s: string): (r: string)
    ensures |r| == |s| && forall i | 0 <= i < |s| :: r[i] == ToLower(s[i])
  {
    if s == "" then "" else [ToLower(s[0])] + Lower(s[1..])
  }

  /** A C string read at an offset that may be its terminator. */
  function CharAt(s: string, i: nat): char {
    if i < |s| then s[i] else '\0'
  }

  // ---- tokens ----

  datatype Kind = Register | Identifier | Separator | Directive | Unknown | Literal | Eof

  /**
   A Token. Its union is seen three ways: `tag` is the leading int (the register,
   separator or directive, and what the parser reads as literal.type), `val` the
   long behind it (literal.value), `text` the characters the identifier or the
   string literal points to.
   */
  datatype Token = Token(kind: Kind, tag: nat, val: int, text: string)

  /** A zero-initialised Token is register 0. */
  const ZERO_TOKEN := Token(Register, 0, 0, "")
  const EOF_TOKEN := Token(Eof, 0, 0, "")
  const COMMA_TOKEN := Token(Separator, SEP_COMMA, 0, "")
  const EOL_TOKEN := Token(Separator, SEP_EOL, 0, "")

  const SEP_COMMA := 0
  const SEP_EOL := 1
  const LIT_INTEGER := 0
  const LIT_CHAR := 1
  const LIT_STRING := 2
  /** REG_UNKNOWN, DIRECT_UNKNOWN and the opcode no name has */
  const NOT_FOUND := 0xFF

  // ---- tables ----

  const OPCODES := ["print_chr", "print_str", "mov", "load_addr", "add", "sub", "mul", "div", "mod", "and", "or",
                    "not", "cmp", "jz", "jnz", "jeq", "jgt", "jge", "jlt", "jle", "jmp", "call", "ret", "push",
                    "pop", "halt"]
  const REGISTERS := ["r0", "r1", "r2", "r3", "r4", "r5", "r6", "r7", "sp", "bp", "hp"]
  const DIRECTIVES := [".start", ".data", ".rodata", ".global"]

  /** The first place of a name in a table. */
  function Lookup(table: seq<string>, s: string): (r: nat)
    requires |table| < NOT_FOUND
    ensures if s in table then r < |table| && table[r] == s && s !in table[..r] else r == NOT_FOUND
  {
    if table == [] then NOT_FOUND
    else
      var n := |table| - 1;
      assert table == table[..n] + [table[n]];
      var r := Lookup(table[..n], s);
      if r != NOT_FOUND then r else if table[n] == s then n else NOT_FOUND
  }

  /** The search loop of getRegisterType, getDirectiveType and opcode_lookup. */
  method Find(table: seq<string>, s: string) returns (r: nat)
    requires |table| < NOT_FOUND
    ensures r == Lookup(table, s)
  {
    for i := 0 to |table|
      invariant s !in table[..i]
    {
      if table[i] == s {
        return i;
      }
    }
    assert table == table[..|table|];
    return NOT_FOUND;
  }

  function OpcodeLookup(s: string): (r: nat)
    ensures r < |OPCODES| || r == NOT_FOUND
  {
    Lookup(OPCODES, s)
  }

  predicate IsOpcode(s: string) {
    OpcodeLookup(s) != NOT_FOUND
  }

  /** opcode_lookup */
  method FindOpcode(s: string) returns (r: nat)
    ensures r == OpcodeLookup(s) && IsOpcode(s) == (r != NOT_FOUND)
  {
    r := Find(OPCODES, s);
  }
}
