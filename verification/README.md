# BitLang: a verified model of the symbol table, the assembler front end, the virtual machine and the arena

BitLang assembles a small register language and runs the result on a virtual machine. This project models four of its
components in Dafny and proves what they do on every input.

* **The intrusive hash table** (`HashElement`, `ChainIndex`, `UtTable`, `UtHash`, `ListSort`, `StableSort`,
  `ExpansionTheorems`, `ExpansionPolicy`) and its client, the **symbol table** (`SymbolTable`). Elements are objects
  with `prev`/`next` and `hhPrev`/`hhNext`; the macros of `uthash.h` are methods that rewrite these fields, the bucket
  array and the counters in place. `ChainIndex` says what each macro makes of buckets, chains and counters as values;
  `StableSort` says what the merge sort and the ordered insertion make of a list. Main results: every add, ordered
  add, delete, expansion and sort keeps the invariant `HASH_FSCK` checks; a run of symbol table additions is a map in
  which first bindings win; the in-place merge sort is a stable sort for every total preorder and equals ordered
  insertion one by one; the expansion policy as a state machine, which bounds the load and every chain until it
  inhibits itself.
* **The assembler front end** (`Tokens`, `Lexer`, `LexemeTheorems`, `LexemeEnds`, `TokenForms`, `TokenStream`,
  `Parser`, `ParserTheorems`, `OperandTheorems`, `ShortCommands`, `RefusedNumbers`, `SourceText`, `Assembler`,
  `ArenaBounds`, `FrontEndSafety`, `ReadmeExample`, `ShortCommandExample`): text to lexemes to tokens to a linked
  stream to lines. Main results: lexemes are a normal form, and where they end; the token of every form of lexeme;
  every program of labels, directives and commands, printed to source text, is read back as the lines it means or
  exits at a stated limit; literals of every size; what becomes of a program with a command that has too few or too
  many operands; which tokens make the parser spin until it exits; text without `.rodata` never makes it read from a
  null pointer. All stages take their memory from one arena, and main's is proved large enough.
* **The virtual machine** (`VmCore`, `VmMachine`, `VmTheorems`, `VmOutcomes`, `LoadAddr`): header, loader, decoder,
  handlers and loop. Main results: which files load, of all files; every run ends, with the program counter and the
  outcome it implies, and its last instruction decides that outcome; decoding inverts encoding; loading and running an
  encoded program agrees with an interpreter over the list of its instructions.
* **The arena** (`Arena`): a bump allocator with a header in front of every block, over one byte array.

`Bits` holds the bit operations of C's unsigned integers. What C leaves undefined (a null pointer, an access beyond an
array, a missing handler) and `exit` are outcomes of their own (`Crash`, `Undefined`, `Crashed`, `Wrapped`, `None`;
`ExitOne`, `Exited`, `ProcessExit`), not preconditions.

## What turned out differently from what the repository says

* The example in the repository's README names registers `R1` and `R2`. A lexeme beginning with a capital `R` is no
  name and no register, so its token stays zero-initialised and reads as register 0: the example uses `r0` only
  (`ReadmeExample.ExampleUsesOneRegister`). Exactly which lexemes read as register 0 is
  `SourceText.ReadAsRegisterZero` (`r8`, `x1` and `@` do too), and the other registers are read from their names alone
  (`SourceText.RegisterDenoted`).
* A hexadecimal literal behind `0x` is stored as the number it writes iff its first digit is 0 to 9
  (`SourceText.HexLiteral`): the lexer takes `0x` before a letter for a decimal 0. Behind `0X` and `-0x` every literal
  is 0, `0X10` and `-0x10` too (`SourceText.OtherHexPrefixes`).
* A command without its last operand is not refused as such, with or without a comment behind it. It takes the first
  word behind its end of line: a symbol from a label or a command, 0 from `.start` or the end of the file
  (`ShortCommands.ShortCommand`). So `mov r0` before `halt` is the one line `mov r0, halt`
  (`ShortCommandExample.MovSwallowsHalt`). What becomes of the program depends on what that word leaves
  (`ShortCommands.ShortCommandEnds`). At the end of the file, and before a label, `.start` or a command without
  operands, it goes on. Before a command whose first operand is a register, the commonest case, or a name that is
  neither an opcode nor a label, the parser spins until it exits: `mov r0` before `mov r1, 5` does. Before one whose
  first operand is a number, and before other directives, the program is refused, except that before `.rodata` a null
  pointer is read. The outcome for every command with any number of operands is `ShortCommands.AnyCommand`.
* A comment needs white space or a separator in front of it. `halt;done` is one name, and the assembler exits at it
  (`LexemeEnds.LexemeReachesTo`, `LexemeEnds.GluedCommentExits`).
* Commas are not counted: none, one or two between two operands are all the same, and the third is read as the operand
  0 (`OperandTheorems.CommasBetween`).
* `LOAD_ADDR` asks the mode of its destination. With a register there, the documented form, it does nothing. With an
  immediate there it stores into the register the immediate names; with base and offset, into the one that the second
  operand names, which is its id if it has one (`LoadAddr.LoadAddrMeaning`, `LoadAddr.ModesThatStore`).
* Once two expansions in a row are ineffective, `noexpand` lasts exactly as long as the table has elements: with the
  last one the table is freed, and the next one starts afresh (`ExpansionTheorems.InhibitionStep`). Whatever the hash
  function, a hundred additions with one hash value get there (`ExpansionPolicy.InhibitionIsReached`).
* `arena_alloc` adds sizes modulo 2^64; the check is exact only where the sum does not wrap around
  (`Arena.AllocatesWhatFits`, `Arena.WrapExample`).
* `symbol_table.h` declares `symbol_table_lookup`; the code defines `symbol_table_get`, which is what is modelled.
* `vm.h` gives the header 18 bytes; the loader reads 22.

## Model

| member | source | states |
|---|---|---|
| `UtHash.HashHead.Add` | src/include/uthash.h:396-422 | the element is last in the list, in the one chain its hash selects, and list, chains and counters are sound; the table expands exactly where the policy says |
| `UtHash.HashHead.AddInOrder` | src/include/uthash.h:350-388 | the same with the element in front of the first one that compares above it |
| `UtHash.HashHead.FindPlace` | src/include/uthash.h:286-293 | the walk stops at the place of ordered insertion |
| `UtHash.HashHead.AppendList` | src/include/uthash.h:278-284 | one more element at the tail, links mutually inverse |
| `UtHash.HashHead.LinkBefore` | src/include/uthash.h:367-374 | one more element in front of another, links mutually inverse, head moved if need be |
| `UtHash.HashHead.Enter` | src/include/uthash.h:337-345 | with its table entry the whole invariant holds again |
| `UtHash.HashHead.Delete` | src/include/uthash.h:447-477 | exactly the element is gone from list and chain, the others keep their order; the last one frees the table |
| `UtHash.HashHead.Find` | src/include/uthash.h:153-173 | null exactly when no element has the key, otherwise an element with it |
| `UtHash.HashHead.Sort` | src/include/uthash.h:890-972 | list, head and tail are those of the stable sort; buckets, chains and counters are untouched |
| `ListSort.Sort` | src/include/uthash.h:890-972 | rewriting prev/next in place ends for every comparator and yields the bottom-up merge sort of the list, linked both ways |
| `ListSort.Sweep` | src/include/uthash.h:900-962 | one sweep merges neighbouring runs, and counts at most one merge exactly when two runs cover the list |
| `ListSort.MergeRuns` | src/include/uthash.h:917-957 | the innermost loop appends the merge of two runs to what is linked already |
| `ListSort.CountRun` | src/include/uthash.h:906-915 | the second run starts insize elements on, or at the end |
| `UtTable.HashTable.MakeTable` | src/include/uthash.h:212-242 | an empty sound table of 32 buckets |
| `UtTable.HashTable.AddToTable` | src/include/uthash.h:337-345 | count, bucket, chain and expansion of an addition |
| `UtTable.HashTable.AddToBucket` | src/include/uthash.h:767-776 | the element is first in its chain, hh_prev/hh_next mutually inverse in every chain |
| `UtTable.HashTable.ExpandBuckets` | src/include/uthash.h:833-883 | twice the buckets, every chain linked, the counters of the policy; the list is not touched |
| `UtTable.HashTable.Redistribute` | src/include/uthash.h:850-870 | the two nested loops move every element exactly once |
| `UtTable.HashTable.MoveChain` | src/include/uthash.h:851-869 | one old chain, walked while its links are rewritten, ends up in the new chains |
| `UtTable.HashTable.MoveElement` | src/include/uthash.h:854-867 | one element moved, counted and linked first in its new chain |
| `UtTable.HashTable.RemoveFromTable` | src/include/uthash.h:789-802 | the element is out of its chain, the rest of which stays in order and linked |
| `UtTable.HashTable.Find` | src/include/uthash.h:745-764 | the first element with the key in the chain its hash selects |
| `ChainIndex.BucketOfIsRemainder` | src/include/uthash.h:430-433 | masking with num_buckets-1 is the remainder of the hash |
| `ChainIndex.AddToOk` | src/include/uthash.h:337-345 | an addition, with or without expansion, keeps the invariant and adds exactly its element |
| `ChainIndex.RemoveOk` | src/include/uthash.h:450-477 | a deletion keeps the invariant and removes exactly its element |
| `ChainIndex.ExpandOk` | src/include/uthash.h:833-883 | an expansion keeps the invariant and the elements |
| `ChainIndex.ExpandedFilled` | src/include/uthash.h:850-870 | after the loops each element is in the one chain its hash selects, and nonideal_items and expand_mult are functions of the chain lengths |
| `ChainIndex.IdealIsCeiling` | src/include/uthash.h:815-832 | the shift-and-mask formula is the ceiling of items over buckets |
| `ChainIndex.LookupFinds` | src/include/uthash.h:745-764 | a chain search finds a key exactly when some element has it |
| `ExpansionTheorems.CountsAddUp` | src/include/uthash.h:516-563 | bucket counts equal chain lengths and add up to num_items; the number of buckets is a power of two |
| `ExpansionTheorems.SplitBucket` | src/include/uthash.h:804-808 | with twice the buckets an element of b belongs in b or b + n |
| `ExpansionTheorems.ExpansionCounts` | src/include/uthash.h:846-860 | ideal length and nonideal_items of an expansion, and that it keeps the elements |
| `ExpansionTheorems.ExpansionSplits` | src/include/uthash.h:850-870 | each element of old bucket b is in new bucket b or b + n |
| `ExpansionTheorems.ExpansionMults` | src/include/uthash.h:856-860 | expand_mult times the ideal length is below count plus ideal, and reaches count minus one in overlong chains |
| `ExpansionTheorems.IneffectiveExpansions` | src/include/uthash.h:875-880 | an expansion is ineffective iff more than half of the elements are beyond the ideal; the second in a row inhibits |
| `ExpansionTheorems.AddExpandsExactly` | src/include/uthash.h:777-779 | an addition expands iff its chain reaches ten times (expand_mult + 1) and expansion is not inhibited |
| `ExpansionTheorems.FindsNewest` | src/include/uthash.h:767-776 | of several elements with one key a find returns the newest, unless its addition expanded the table |
| `ExpansionTheorems.FirstWithIs` | src/include/uthash.h:745-764 | a chain search returns the first element with the key |
| `ExpansionTheorems.RunsKeepTables` | src/include/uthash.h:516-563 | every run of additions and deletions keeps the invariant, and its elements are those the run says |
| `ExpansionTheorems.InhibitionLasts` | src/include/uthash.h:777-779 | inhibited, no run that leaves elements changes the number of buckets, and finds stay exact |
| `ExpansionTheorems.InhibitionStep` | src/include/uthash.h:450-477 | from an inhibited table a step leads to an inhibited one iff elements are left, and to a new table otherwise |
| `ExpansionPolicy.LoadStaysBounded` | src/include/uthash.h:777-779 | after every run from a new table, items are at most 61 times the buckets while expansion is not inhibited: the average chain is bounded |
| `ExpansionPolicy.ChainsStayBounded` | src/include/uthash.h:804-813 | and so is each chain: it is at most 31 times its bucket's expand_mult plus one |
| `ExpansionPolicy.RunsBounded` | src/include/uthash.h:777-779 | every run keeps the sum of the chain lengths at which buckets expand within that bound, and each chain within its own |
| `ExpansionPolicy.ExpandedMults` | src/include/uthash.h:846-860 | after an expansion the multipliers add up to at most twice the buckets |
| `ExpansionPolicy.InhibitionIsReached` | src/include/uthash.h:875-880 | for every hash function, a hundred additions of keys with one hash value to a new table inhibit expansion |
| `StableSort.MergeSortIsStableSort` | src/include/uthash.h:886-972 | for every total preorder the merge sort is sorted, a permutation, and keeps the order of ties |
| `StableSort.StableSortUnique` | src/include/uthash.h:886-972 | a sorted list is determined by its ties: stable sorting has one answer |
| `StableSort.InsertAllStable` | src/include/uthash.h:286-293 | ordered insertion keeps ties in order of arrival |
| `StableSort.InsertionIsSorting` | src/include/uthash.h:350-381 | ordered insertion one by one equals appending all and sorting |
| `UtHash.AddEachInOrder` | src/include/uthash.h:350-388 | a client that adds elements in order ends up with the merge sort of their order of arrival |
| `UtHash.AddEachAndSort` | src/include/uthash.h:890-972 | so does one that appends them and sorts |
| `SymbolTable.Init` | src/utils/symbol_table/symbol_table.c:7-11 | the empty map |
| `SymbolTable.Add` | src/utils/symbol_table/symbol_table.c:13-31 | true exactly when the key is absent; adds that binding or changes nothing, or exits iff the arena does not hold a new entry and its key |
| `SymbolTable.Get` | src/utils/symbol_table/symbol_table.c:33-38 | the address bound to the symbol, a null dereference if there is none |
| `SymbolTable.AddEach` | src/utils/symbol_table/symbol_table.c:13-31 | any sequence of additions, through any number of expansions, is the run of a map, or exits iff the arena does not hold the new entries |
| `SymbolTable.FirstBindingWins` | src/utils/symbol_table/symbol_table.c:13-31 | in such a run an addition succeeds iff its key is new, and the first value of each key stays |
| `SymbolTable.OneMoreEntry` | src/utils/symbol_table/symbol_table.c:23-26 | an entry more takes 89 bytes and its key's length from the arena, unless its key is bound or came before |
| `SymbolTable.BindingsAre` | src/utils/symbol_table/symbol_table.c:13-38 | with unique keys the map and the elements determine each other |
| `Lexer.GetLexemesInLine` | src/assembler/lexer/lexer.c:88-163 | the loops end and store exactly the lexemes of the line, at most 100, or exit iff the arena does not hold them |
| `LexemeTheorems.LexemesAreNormal` | src/assembler/lexer/lexer.c:114-160 | each lexeme is a comma, a newline or a word, and stands where there was room for it |
| `LexemeTheorems.LexemesCoverWhatWasRead` | src/assembler/lexer/lexer.c:95-161 | the lexemes concatenated are what was read with white space removed |
| `LexemeTheorems.WhereReadingEnds` | src/assembler/lexer/lexer.c:103-159 | reading stops only at the end, at a comment or where a limit is reached |
| `LexemeTheorems.ReadJoined` | src/assembler/lexer/lexer.c:88-163 | any list of lexemes within the limits, joined by blanks, is read back |
| `LexemeTheorems.RelexingIsIdentity` | src/assembler/lexer/lexer.c:88-163 | re-lexing the lexemes of any line yields them again |
| `LexemeEnds.LexemeReachesTo` | src/assembler/lexer/lexer.c:134-142 | a lexeme ends at the end of the text, a comma and the six characters of white space, each named, and at nothing else; not at `;` or `#` |
| `LexemeEnds.LexemeOfALine` | src/assembler/lexer/lexer.c:134-158 | so every string without those eight that does not start a comment is one lexeme of its line |
| `LexemeEnds.WhatStartsALine` | src/assembler/lexer/lexer.c:97-131 | white space is skipped, a comma and a newline are lexemes, NUL, `;` and `#` end the line |
| `LexemeEnds.CommentsIgnored` | src/assembler/lexer/lexer.c:108-112 | a comment with a blank in front of it changes no lexeme of any line |
| `LexemeEnds.GluedCommentExits` | src/assembler/lexer/lexer.c:137-142 | a comment that touches a name becomes part of it, and the assembler exits whatever follows |
| `LexemeEnds.SeparatorLimit` | src/assembler/lexer/lexer.c:115-129 | of separators the first eleven lexemes of a line are stored |
| `LexemeEnds.WordLimit` | src/assembler/lexer/lexer.c:145-158 | of words the first hundred |
| `Tokens.Find` | src/assembler/lexer/lexer.c:60-82 | the first place of a name in a table, or 0xFF |
| `Tokens.Lookup` | src/utils/assembler_utils/opcodes.c:16-26 | found iff it is in the table, and then at its first place |
| `Lexer.NormalizeInput` | src/assembler/lexer/lexer.c:167-173 | every character lowered in place |
| `Lexer.LexOne` | src/assembler/lexer/lexer.c:187-301 | the token of a lexeme, branch by branch, or exit iff the arena does not hold its copy |
| `Lexer.Lex` | src/assembler/lexer/lexer.c:175-306 | the tokens of a line in order, or exit iff the arena does not hold them |
| `Lexer.RunLexer` | src/assembler/lexer/lexer.c:308-374 | the tokens of all lines and TOK_EOF iff there are at most 255 before it and the arena holds what they take, otherwise exit |
| `SourceText.DecimalLiteral` | src/assembler/lexer/lexer.c:224-253 | a decimal literal of value v is stored as v mod 2^32 from -2^31 to 2^32-1, as 2^32-1 above, and rejected below |
| `SourceText.HexLiteral` | src/assembler/lexer/lexer.c:226-243 | a hexadecimal literal of any length behind 0x is stored as the number it writes iff its first digit is 0 to 9 |
| `SourceText.HexLiteralStartingWithADigit` | src/assembler/lexer/lexer.c:233-242 | then it is read in base 16 |
| `SourceText.HexLiteralStartingWithALetter` | src/assembler/lexer/lexer.c:226-228 | otherwise it reads as 0 |
| `SourceText.OtherHexPrefixes` | src/assembler/lexer/lexer.c:224-243 | behind 0X and -0x everything reads as 0 |
| `TokenForms.KindOf` | src/assembler/lexer/lexer.c:187-302 | the kind of the token of every lexeme, by its characters |
| `TokenForms.NameToken` | src/assembler/lexer/lexer.c:167-205 | a name is its text with A to Z made a to z |
| `TokenForms.StackRegistersAreNames` | src/assembler/lexer/lexer.c:193-205 | sp, bp and hp are names |
| `TokenForms.RegisterNames` | src/assembler/lexer/lexer.c:207-212 | r0 to r7 are the registers 0 to 7 |
| `TokenForms.HexDigits` | src/assembler/lexer/lexer.c:233-236 | which sixteen characters, in both cases, are the hexadecimal digits of which value |
| `TokenForms.NumberToken` | src/assembler/lexer/lexer.c:224-253 | a number ends at the first character that is no digit, and what is behind it is dropped |
| `TokenForms.QuotedToken` | src/assembler/lexer/lexer.c:263-275 | a quoted lexeme is a literal with the text between its quotes |
| `TokenForms.QuotedTokenAt` | src/assembler/lexer/lexer.c:263-275 | each quoted lexeme of a file has the address of its own copy |
| `TokenForms.SeparatorForms` | src/assembler/lexer/lexer.c:276-290 | the numbers of the comma and the end of line |
| `TokenForms.DirectiveForms` | src/assembler/lexer/lexer.c:291-299 | the numbers of the four directives, and 255 for every other |
| `TokenForms.LastLine` | src/assembler/lexer/lexer.c:323-327 | a last line without a newline is read as it is |
| `TokenForms.PiecesOfALine` | src/assembler/lexer/lexer.c:323-327 | 1023 characters without a newline are lexed by themselves |
| `SourceText.RegisterDenoted` | src/assembler/lexer/lexer.c:193-213 | a lexeme denotes register 1 to 7 iff it is that register's name |
| `SourceText.ReadAsRegisterZero` | src/assembler/lexer/lexer.c:187-299 | a lexeme denotes register 0 iff it is r0 or begins as none of the lexer's branches wants |
| `SourceText.CapitalRIsRegisterZero` | src/assembler/lexer/lexer.c:187-194 | every lexeme that begins with R is the zero token |
| `SourceText.CharacterLiteralIsInteger` | src/assembler/lexer/lexer.c:255-261 | a character literal of any character as operand is the integer of its byte |
| `TokenStreams.BuildTokenStream` | src/utils/token_stream/token_stream.c:33-91 | a linked list of exactly the given tokens, positioned at the first, or exit iff the arena does not hold it |
| `TokenStreams.TokenStream.Peek` | src/utils/token_stream/token_stream.c:7-17 | the current token, the zero token behind the last |
| `TokenStreams.TokenStream.Consume` | src/utils/token_stream/token_stream.c:19-31 | the current token, and the stream moves on by it |
| `Parser.ParseRegister` | src/assembler/parser/parser.c:477-496 | a register id and its token consumed, or 0xFF and nothing |
| `Parser.ParseInteger` | src/assembler/parser/parser.c:408-424 | the low 32 bits of a value in range and its token consumed, or failure and nothing, also on an empty stream |
| `Parser.ParseOperand` | src/assembler/parser/parser.c:321-406 | operand, failure or null dereference, and the tokens left, for every token |
| `Parser.ParseOpcode` | src/assembler/parser/parser.c:245-268 | the opcode of a known name, its token consumed |
| `Parser.ParseOperands` | src/assembler/parser/parser.c:190-235 | as many operands as the opcode has, and which separators go with them |
| `Parser.ParseInstruction` | src/assembler/parser/parser.c:172-243 | an opcode and its operands, with the copy of its name |
| `Parser.ParseDirective` | src/assembler/parser/parser.c:270-317 | the directive alone: operands are never read |
| `Parser.ParseLabelDef` | src/assembler/parser/parser.c:152-170 | the name without its last character |
| `Parser.ParseLine` | src/assembler/parser/parser.c:72-150 | the line and the tokens left, also where nothing is consumed |
| `Parser.Program.Parse` | src/assembler/parser/parser.c:25-70 | the loop ends, by tokens left plus lines left, with the lines, a failure, exit or a crash; exit also where the arena is exhausted |
| `ParserTheorems.IdleExactly` | src/assembler/parser/parser.c:77-84 | exactly which tokens parse_line accepts without consuming or storing |
| `ParserTheorems.IdleTokensExit` | src/assembler/parser/parser.c:36-65 | at such a token the loop always ends in exit(1) |
| `ParserTheorems.SuccessBoundsTheCount` | src/assembler/parser/parser.c:49-67 | success means at most capacity and at most as many lines as tokens, none of them blank |
| `ParserTheorems.ReadStatement` | src/assembler/parser/parser.c:72-150 | any statement printed to tokens is read back, with at most its end of line left |
| `ParserTheorems.ReadStatements` | src/assembler/parser/parser.c:25-70 | any program printed to tokens is read back, or exits iff the lines or the arena do not suffice |
| `ShortCommands.ShortCommand` | src/assembler/parser/parser.c:188-235 | what parse_line makes of every command without its last operand, end of line stored or not, before every program: refused, crash or a line with the next word, each iff |
| `ShortCommands.ShortCommandEnds` | src/assembler/parser/parser.c:36-67 | what parse_program makes of it by the form of what follows: goes on, exits, refuses or crashes |
| `ShortCommands.AnyCommand` | src/assembler/parser/parser.c:36-67 | the outcome of the program for every command with any number of operands, too few or too many, before every well-formed program, capacity and arena |
| `ShortCommands.StrandedOperands` | src/assembler/parser/parser.c:72-150 | what becomes of operands that stand where a line should start |
| `ShortCommands.BothMissing` | src/assembler/parser/parser.c:188-235 | a command that lacks both of its operands takes two words, and is refused at the end of the file |
| `ShortCommands.TakenFrom` | src/assembler/parser/parser.c:328-405 | the operand the first word of any statement, or the end of the file, is taken for, and the tokens it leaves |
| `ShortCommands.DirectiveAsOperand` | src/assembler/parser/parser.c:354-403 | which directives, known or not, are integers, errors or crashes as operands |
| `FrontEndSafety.FrontEndIsSafe` | src/main.c:60-79 | text none of whose lexemes is .rodata never makes lexer and parser read from a null pointer |
| `FrontEndSafety.LinesSafe` | src/assembler/parser/parser.c:25-70 | nor do tokens among which no name is empty and nothing but a register or name has tag 2 |
| `ParserTheorems.OpcodeNames` | src/utils/assembler_utils/opcodes.c:8-26 | looking up the name of an opcode yields the opcode |
| `OperandTheorems.OpcodeNumbers` | src/utils/assembler_utils/opcodes.c:8-14 | the number of each opcode, by its name |
| `OperandTheorems.OperandCounts` | src/vm/instruction_format_table.c:5-47 | how many operands each opcode has, by its name |
| `OperandTheorems.NumberOperand` | src/assembler/parser/parser.c:354-367 | a number is an operand iff it is from -2^31 to 2^32-1, and otherwise refused and not consumed |
| `OperandTheorems.NumberRefuses` | src/assembler/parser/parser.c:196-223 | such a number refuses the line as either operand of every opcode that has it |
| `OperandTheorems.NumberRefusesProgram` | src/assembler/parser/parser.c:55-64 | and the program, behind every well-formed one and before any tokens, unless lines or bytes run out first |
| `RefusedNumbers.NumberRefusesText` | src/main.c:60-79 | and the source text: a number below -2^31 behind any printed program and before any text |
| `OperandTheorems.CommasBefore` | src/assembler/parser/parser.c:330-333 | one comma before an operand is stepped over, the second is the integer 0 |
| `OperandTheorems.CommasBetween` | src/assembler/parser/parser.c:209-219 | up to two commas between operands are all the same; the third is taken for the second operand |
| `OperandTheorems.TaggedCharacter` | src/assembler/parser/parser.c:369-387 | a tagged character is not consumed, so the program is refused at it |
| `OperandTheorems.TaggedString` | src/assembler/parser/parser.c:388-402 | a tagged string is copied, a null one crashes, other tags are refused |
| `OperandTheorems.RegisterOperand` | src/assembler/parser/parser.c:339-347 | the low byte of a register number, 255 refused |
| `OperandTheorems.BlankLinesIgnored` | src/assembler/parser/parser.c:38-43 | blank lines between lines count for nothing |
| `OperandTheorems.EndsAtEof` | src/assembler/parser/parser.c:25-48 | reading ends at TOK_EOF; without lines to store into it fails, without bytes for them it exits |
| `OperandTheorems.DirectiveAlone` | src/assembler/parser/parser.c:270-317 | a directive takes its own token only; a number behind it refuses the program, a register makes it exit |
| `OperandTheorems.NoInstruction` | src/assembler/parser/parser.c:172-184 | without an opcode parse_instruction fails, having copied a name |
| `OperandTheorems.AtTheEnd` | src/assembler/parser/parser.c:136-140 | TOK_EOF is a blank line of its own, and nothing is no operand |
| `ShortCommands.BlankLinesBehind` | src/assembler/parser/parser.c:190-213 | one blank line behind a command short of an operand changes nothing, two refuse it |
| `SourceText.LineLexemes` | src/assembler/lexer/lexer.c:88-163 | the lexemes of every printed statement |
| `SourceText.LineTokens` | src/assembler/lexer/lexer.c:175-306 | their tokens are those of the statement |
| `SourceText.ChunkIsLine` | src/assembler/lexer/lexer.c:323-325 | a line that fits the buffer is read as one |
| `SourceText.TextTokens` | src/assembler/lexer/lexer.c:308-374 | a printed program lexes to its tokens |
| `SourceText.SourceRoundTrip` | src/assembler/parser/parser.c:25-70 | a printed program is read back as the lines it means iff it has at most 255 tokens and fits the capacity and the arena, and exits otherwise |
| `ArenaBounds.MainRoundTrip` | src/main.c:52-79 | as main runs it, a printed program is read back iff it has at most 255 tokens and a hundred lines |
| `ArenaBounds.ArenaSuffices` | src/main.c:52-53 | main's arena holds what every such program takes |
| `ArenaBounds.TextSizeBound` | src/assembler/lexer/lexer.c:325-355 | any text takes at most 868 bytes for each of its characters |
| `ArenaBounds.TokenBytes` | src/assembler/lexer/lexer.c:193-299 | what the token of every lexeme takes from the arena, to the byte |
| `ArenaBounds.LineBytes` | src/assembler/lexer/lexer.c:88-160 | what the lexemes and tokens of a line take |
| `ArenaBounds.StageBytes` | src/utils/token_stream/token_stream.c:33-91 | what the token stream takes, and the lexer beside its lines |
| `ShortCommandExample.MovSwallowsHalt` | src/assembler/parser/parser.c:190-219 | `mov r0` before `halt` is one line |
| `Assembler.Assemble` | src/main.c:60-79 | lexer, token stream and parser in sequence, over one arena, yield what the functions say |
| `ReadmeExample.ExampleUsesOneRegister` | README.md:69-73 | the example program reads as one that uses r0 only |
| `VmMachine.ReadHeaderU16` | src/vm/vm_utils/vm_utils.c:72-81 | two bytes, little-endian, or an error |
| `VmMachine.ReadHeaderU32` | src/vm/vm_utils/vm_utils.c:83-94 | four bytes, little-endian, or an error |
| `VmMachine.ParseHeader` | src/vm/vm_utils/vm_utils.c:96-136 | six fields from exactly 22 bytes |
| `VmTheorems.HeaderRoundTrip` | src/vm/vm_utils/vm_utils.c:72-136 | parsing inverts little-endian serialisation of the header |
| `VmMachine.VmContext.LoadBytecode` | src/vm/vm.c:91-162 | succeeds exactly for acceptable images, and then changes only the code bytes; of rejected images a truncated one changes memory by the code it has |
| `VmOutcomes.FileLoads` | src/vm/vm.c:111-152 | a header with anything behind it loads iff version 1, 0 < code_len <= 0x80000, both data lengths at most 0x40000 and code_len bytes follow; its code is what is loaded |
| `VmOutcomes.EveryFile` | src/vm/vm_utils/vm_utils.c:96-136 | every file is such a header with something behind it, or shorter than 22 bytes, and then never loads |
| `VmOutcomes.CodeInMemory` | src/vm/vm.c:146-152 | the code is the first bytes of memory, the others are as they were |
| `VmTheorems.DecodeInvertsEncode` | src/vm/vm.c:177-227 | decoding any named opcode, ids, modes and immediate yields them, whatever the structure held before |
| `VmTheorems.FreeMetadataBits` | src/vm/vm.c:177-227 | metadata bits 0 and 7 show in metadata_flags only |
| `VmTheorems.PopulateHolds` | src/vm/vm_utils/vm_utils.c:26-52 | what an operand of each mode holds |
| `VmMachine.VmContext.HandleMov` | src/vm/vm.c:358-434 | one register gets the operand's value, or an error |
| `VmMachine.VmContext.HandleLoadAddr` | src/vm/vm.c:436-504 | the step as written, by the mode of the first operand, in the terms of the next rows |
| `LoadAddr.LoadAddrMeaning` | src/vm/vm.c:436-504 | what an encoded LOAD_ADDR does in terms of its bytes, for every destination mode, source mode and machine |
| `LoadAddr.RegisterDestinationDoesNothing` | src/include/parser.h:20 | the documented form changes nothing |
| `LoadAddr.ModesThatStore` | src/vm/vm.c:440-501 | some LOAD_ADDR with a destination mode changes a register iff the mode is one of three |
| `VmMachine.VmContext.HandlePrintChr` | src/vm/vm.c:311-328 | the low byte of a register is printed |
| `VmMachine.VmContext.HandlePrintStr` | src/vm/vm.c:330-356 | the string at an address inside memory is printed |
| `VmMachine.VmContext.PrintString` | src/vm/vm_utils/vm_utils.c:54-70 | the bytes up to the first zero and a newline; without a zero all bytes to the end of memory, which is then read beyond its end |
| `VmOutcomes.StringEnds` | src/vm/vm_utils/vm_utils.c:54-64 | a string reaches from its address to the first zero byte |
| `VmOutcomes.StringHasNoEnd` | src/vm/vm_utils/vm_utils.c:54-64 | and has no end if no byte from there on is zero |
| `VmOutcomes.PrintsString` | src/vm/vm.c:330-356 | PRINT_STR prints those bytes and a newline |
| `VmMachine.VmContext.HandleHalt` | src/vm/vm.c:506-514 | the machine is halted if the opcode says so |
| `VmMachine.VmContext.Execute` | src/vm/vm.c:296-309 | the handler of the opcode, if it has one |
| `VmMachine.VmContext.Fetch` | src/vm/vm.c:164-175 | eight bytes inside memory and pc moved by 8, or out of bounds |
| `VmMachine.VmContext.Loop` | src/vm/vm.c:249-293 | the loop ends as the run of the fetch/decode/execute function does, and never writes memory |
| `VmMachine.VmContext.RunVm` | src/vm/vm.c:229-294 | outcome and final context from any file, memory being the loaded image |
| `VmTheorems.RunsEnd` | src/vm/vm.c:249-293 | bound on the fetches, pc = entry + 8k, all fetches inside memory, 0 means halted, other returned codes are soft errors of at least 100 |
| `VmOutcomes.LastInstruction` | src/vm/vm.c:249-293 | the opcode of the last instruction fetched decides how a run ended: exit 4 iff it does not exist, a crash if it has no handler, 0 for HALT or beyond the limit, 103 and 113 only from the opcodes that report them |
| `VmOutcomes.UnknownOpcode` | src/vm/vm.c:195-200 | an opcode from 0x1A to 0xFE exits the process with 4, in the fatal state |
| `VmOutcomes.NoHandler` | src/vm/vm.c:15-39 | an opcode that exists without a handler is a call through a null pointer |
| `VmOutcomes.BeyondTheLimit` | src/vm/vm.c:166-170 | beyond 5242880 nothing is fetched and 0 is returned, halted, with nothing else changed |
| `VmOutcomes.MovMeaning` | src/vm/vm.c:358-434 | what an encoded MOV does in terms of its bytes, for every destination mode, source mode and machine |
| `VmOutcomes.IllegalModes` | src/vm/vm.c:311-356 | the modes for which PRINT_CHR and PRINT_STR return 113 |
| `VmOutcomes.HandledNames` | src/utils/assembler_utils/opcodes.c:8-14 | the opcodes with handlers are those the assembler gives their names |
| `VmTheorems.ExecuteEncoded` | src/vm/vm.c:296-434 | executing an encoded instruction has the effect of the instruction |
| `VmTheorems.RunRefinesInterpreter` | src/vm/vm.c:249-293 | running an encoded list agrees with interpreting the list, and goes on behind a list that has no end |
| `VmTheorems.ImageLoads` | src/vm/vm.c:103-161 | the image of a program loads, with the program at the start of memory |
| `VmTheorems.ImageRefinesInterpreter` | src/vm/vm.c:229-294 | loading and running the image of a program agrees with interpreting it, with or without a halt |
| `VmTheorems.HaltStops` | src/vm/vm.c:506-514 | a program with a halt does not run off its end |
| `Arena.MemoryArena.constructor` | src/utils/arena_allocator/arena_allocator.c:9-19 | an empty arena over a buffer |
| `Arena.MemoryArena.Alloc` | src/utils/arena_allocator/arena_allocator.c:21-38 | the next block behind the others with its size in front, only header bytes written; exit or wrap-around otherwise |
| `Arena.MemoryArena.Calloc` | src/utils/arena_allocator/arena_allocator.c:40-62 | null for zero sizes and overflowing products, otherwise a zeroed block |
| `Arena.MemoryArena.Strdup` | src/utils/arena_allocator/arena_allocator.c:80-90 | a block that holds the string and its terminator |
| `Arena.MemoryArena.ClientWrite` | src/utils/arena_allocator/arena_allocator.c:21-38 | writing anywhere into one's own payload leaves all headers readable |
| `Arena.MemoryArena.Reserve` | src/utils/arena_allocator/arena_allocator.c:21-38 | an object is granted iff it fits |
| `Arena.MemoryArena.ReserveArray` | src/utils/arena_allocator/arena_allocator.c:40-62 | an array is null where arena_calloc refuses it, and otherwise what arena_alloc makes of the product; of objects from 2 bytes to two gigabytes it is null for counts of zero or less, and otherwise granted iff it fits |
| `Arena.AllocatesWhatFits` | src/utils/arena_allocator/arena_allocator.c:23-30 | a request is granted iff the block fits, except where the sums wrap around |
| `Arena.BlocksDisjoint` | src/utils/arena_allocator/arena_allocator.c:32-37 | blocks with their headers are pairwise disjoint and inside what is allocated |
| `Arena.WalkFrom` | src/utils/arena_allocator/arena_allocator.c:32-37 | stepping from header to header recovers the requested sizes |
| `Arena.WalkSurvivesWrites` | src/utils/arena_allocator/arena_allocator.c:32-37 | so it does after any change of bytes that are no header |
| `Arena.PayloadIsNoHeader` | src/utils/arena_allocator/arena_allocator.c:32-37 | no byte of a payload belongs to a header |

## Left out

- Counters of the hash table are unbounded: `num_items`, bucket counts, `expand_mult` and `insize` do not wrap around at 2^32.
- The head pointer and the `UT_hash_table` it leads to are two objects, and the back pointers `hh.tbl` are not fields; the hash function is an arbitrary function from keys to 32 bits, and a symbol's key and address do not change.
- `HASH_REPLACE`, `HASH_SELECT`, `HASH_CLEAR`, `HASH_ITER`, the Bloom filter, non-fatal out-of-memory handling and key emission of `uthash.h`: no client uses them.
- malloc failure, opening files, logging and the command line. A file is a byte sequence with a read position, printed output a sequence.
- Arena.MemoryArena.Reserve: reports an exit where the sums of arena_alloc wrap around and it grants an overlapping block. That takes an object of nearly 2^64 bytes, which no string in memory can be; `Arena.MemoryArena.Alloc` and `ReserveArray` have the case.
- ShortCommands.AnyCommand: one command at a time may have the wrong number of operands, the others are well-formed. Blank lines behind it are `ShortCommands.BlankLinesBehind`.
- FrontEndSafety.FrontEndIsSafe: is not an equivalence, because `.rodata` on a line of its own is a directive and reads nothing.
- The contents of the copies the front end makes in the arena are values; only their sizes are taken from it.
- The address of the copy of a string literal is a parameter (`copies`) of the lexer. Reading one back as an operand needs a tag the lexer never sets.
- `lexeme` fields of tokens, which only log messages read; operand slots behind the last operand of an instruction, which stay OT_NONE or unset.
- `parse_address`, `parse_comment`, `arena_realloc` (it always exits), `vm_allocate_string`, `calculate_vm_data_size`, `ident_lookup`: unused or small.
- BASE_OFFSET sources of MOV and all of LOAD_ADDR are modelled as written and kept out of the interpreter, because the handlers do not read what the decoder stored.
- strtoll is modelled for strings that start with a digit or a minus sign, which are all the lexer passes.
