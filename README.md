# A verified model of the client-sIDE C++-to-WebAssembly compiler core

client-sIDE compiles a small subset of C++ (global and local `int`/`long`/`float`/`double`
variables, a `main` and an `update` function, assignments of flat arithmetic expressions,
`if`, `drawCircle(...)` and `std::cout << "..."`) into a WebAssembly module, in the browser.
The compiler itself (`src/cpp.cpp`) runs as WebAssembly: `getWasmFromCpp` reads the source
text and writes the module right after it in memory. It works in these steps:

- write the header and the fixed Type, Import, Function and Memory sections;
- scan the source for globals, building the Global section and the `varHashes`/`varTypes`
  tables;
- write the Export section and the head of the Code section;
- compile `main` and then `update` with `compileAndInsertFunction`;
- back-patch every size field;
- return the module's address and size packed into one 32-bit word.

`compileAndInsertFunction` makes two passes over a function body. The first finds the locals.
The second generates code, calling `compileExpression`, a strictly left-to-right emitter with a
single slot for a pending operator. On the JavaScript side, `compiler.mjs` holds back what the
compiled program prints until a newline arrives (`bufferedPuts`, `flushStdout`).

The model is written in Dafny, one module per layer:

| file | module | what it holds |
|---|---|---|
| `wasm.dfy` | `Wasm` | bytes, section ids, opcodes, LEB128 decoding, the packed return value |
| `lexer.dfy` | `Lexer` | character classes, the identifier hash, the token scanners (functions and the loops that compute them) |
| `keywords.dfy` | `Keywords` | the hashes of the known names, the type-name and operator tables |
| `variables.dfy` | `Variables` | the 32-entry variable tables as values, table lookups, `get`/`set` instructions |
| `expression.dfy` | `Expression` | `compileExpression` as a token list plus a queue machine, with a reference postfix definition |
| `function_spec.dfy` | `FunctionSpec` | `compileAndInsertFunction` as functions over an explicit state (one function per branch of the loop body, one pass, both passes) |
| `module_spec.dfy` | `ModuleSpec` | `getWasmFromCpp` as functions: the fixed sections, the global scan, the function searches, the whole module |
| `compiler.dfy` | `CppCompiler` | class `Compiler`, holding the cursors, the output, the two tables and the count of globals; its methods follow the C++ loops and are proved equal to the functions above |
| `stdout_buffer.dfy` | `StdoutBuffer` | class `LineBuffer`: `bufferedPuts` and `flushStdout` over the module-level `buffer` |

Representation choices:

- The input is a `seq<char>`. `readPos` is an offset into it, and a read at or past the end
  yields NUL.
- The output is a `seq<Byte>` that grows, so `writePos` is its length. Back-patches are updates
  of that sequence.
- `varHashes` and `varTypes` are 32-element arrays.
- The `-1` sentinels become `Option` values. The 32-bit `scopeDepth` wraps explicitly.
- The hash is computed in 32 bits, with characters promoted as signed bytes.

Some behaviour of the code is kept as written:

- In pass 0 every statement that begins with an identifier skips past the next `;`. The
  character right after that `;` is then stepped over by the loop's own `++readPos`.
- Each `}` in pass 0 writes an `end` byte. The first of these is where the local count lands
  (`functionBodySize[2]`).
- A declaration in pass 1 makes the pending assignment target the index one past the last
  variable counted in pass 0.
- Any two words at the top level outside `main`/`update` are taken as a global declaration.
- Identifier lookup reads every matching entry, not only the first.

## Model

| member | source | states |
|---|---|---|
| Lexer.At | src/cpp.cpp:174-180 | a read inside the input yields its character, and a read outside yields NUL, as the module written right after the input begins with a zero byte |
| Lexer.Span | src/cpp.cpp:267-269 | the span handed to the hash has exactly q - p characters, each as read at its position, and is the plain slice when it lies inside the input |
| Lexer.SignedChar | src/cpp.cpp:40 | a `char` added to the hash is a signed byte in [-128, 128) congruent to the character's code mod 256 |
| Lexer.Mix | src/cpp.cpp:40 | one step `hash += (hash << 2) + c` in 32 bits, where the shift drops the high bits of 4·hash: 5·hash + c modulo 2^32 with c a signed byte |
| Lexer.HashAppend | src/cpp.cpp:37-44 | the empty identifier hashes to 0, and appending character c turns hash h into (5·h + c) mod 2^32 |
| Lexer.HashFromAppend | src/cpp.cpp:39-41 | from any starting value, hashing one more character applies one more step of the loop |
| Lexer.IdentifierHash | src/cpp.cpp:37-44 | the loop `hash += (hash << 2) + str[i]` computes the hash of the whole identifier |
| Lexer.NumberEnd | src/cpp.cpp:82-84 | the end of a maximal run of digits, `.` and `f` |
| Lexer.IdentifierEnd | src/cpp.cpp:86-88 | the end of a maximal run of letters, digits, `_` and `:` |
| Lexer.TokenEnd | src/cpp.cpp:79-95 | a token always advances at least one character; one starting with `-`, `.` or a digit runs over digits, `.` and `f`, one starting with a letter or `_` over identifier characters and `:`, and is maximal; anything else is one character |
| Lexer.NextIdentifier | src/cpp.cpp:69-76 | the first position from p that can start an identifier, every position before it cannot, bounded by the end of the input |
| Lexer.NextToken | src/cpp.cpp:115-121 | the first position from p that is not a space or newline, never past the end |
| Lexer.SkipPast | src/cpp.cpp:543 | one past the first occurrence of c from p, bounded by the end of the input |
| Lexer.SkipTo | src/cpp.cpp:334-336 | the first occurrence of c from p, bounded by the end of the input |
| Lexer.FindTokenEnd | src/cpp.cpp:79-95 | the loops of findTokenEnd compute TokenEnd |
| Lexer.FindNextIdentifier | src/cpp.cpp:69-76 | the loop of findNextIdentifier computes NextIdentifier |
| Lexer.FindNextToken | src/cpp.cpp:115-121 | the loop of findNextToken computes NextToken |
| Lexer.FindPast | src/cpp.cpp:584 | the loop `while (*readPos++ != c);` computes SkipPast |
| Lexer.FindChar | src/cpp.cpp:334-336 | the loop `while (*readPos != c) ++readPos;` computes SkipTo |
| Keywords.HashStep | src/cpp.cpp:40 | one step of the hash carries a known value through one more character |
| Keywords.HashOfInt | src/cpp.cpp:146 | the constant for `int` is the hash of "int" |
| Keywords.HashOfLong | src/cpp.cpp:148 | the constant for `long` is the hash of "long" |
| Keywords.HashOfFloat | src/cpp.cpp:150 | the constant for `float` is the hash of "float" |
| Keywords.HashOfDouble | src/cpp.cpp:152 | the constant for `double` is the hash of "double" |
| Keywords.HashOfIf | src/cpp.cpp:529 | the constant for `if` is the hash of "if" |
| Keywords.HashOfDrawCircle | src/cpp.cpp:539 | the constant for `drawCircle` is the hash of "drawCircle" |
| Keywords.HashOfCout | src/cpp.cpp:545 | the constant for `std::cout` is the hash of "std::cout" |
| Keywords.HashOfMain | src/cpp.cpp:280 | the constant for `main` is the hash of "main" |
| Keywords.HashOfUpdate | src/cpp.cpp:280 | the constant for `update` is the hash of "update" |
| Keywords.KnownHashes | src/cpp.cpp:6 | every `HASH(...)` constant the compiler compares against is the hash of its name |
| Keywords.TypeFromHash | src/cpp.cpp:143-157 | the result is either `void` or one of the four value types |
| Keywords.TypeNamesRoundTrip | src/cpp.cpp:143-157 | the hash of each of `int`, `long`, `float`, `double` maps back to i32, i64, f32, f64; any hash mapped to a value type is the hash of that type's name; the hashes of `if`, `drawCircle` and `std::cout` map to `void` |
| Keywords.OpFromOperator | src/cpp.cpp:123-141 | the opcode is not `unreachable` (0) exactly for the six operator characters, and is one of the six f32 operations otherwise |
| Keywords.OperatorsRoundTrip | src/cpp.cpp:123-141 | the operator table is one-to-one on `+ - * / < >`; `,` and `=` map to `unreachable`, which `if (queuedOperation)` reads as nothing queued |
| Variables.Record | src/cpp.cpp:297-299 | a free slot receives the hash and type at index `count` and the count grows by one, leaving every other entry as it was; with all 32 slots taken nothing is written and the overflow flag is raised |
| Variables.Matches | src/cpp.cpp:667-668 | the indices below `total` with this hash, all of them and in increasing order |
| Variables.LastMatch | src/cpp.cpp:576-580 | a changed target is a matching index below `total` with no match after it, and whenever some entry matches the result is an index below `total` |
| Variables.LastMatchWins | src/cpp.cpp:576-580 | last match wins: when some entry matches, the target is the matching entry with no match after it, whatever the previous target was; when none matches, the previous target is kept |
| Variables.LastMatchIsLast | src/cpp.cpp:576-580 | conversely, a matching entry with no match after it is always the target chosen |
| Variables.GetVar | src/cpp.cpp:669-675 | a read is two bytes, `get_global` exactly for an index below the globals and `get_local` otherwise |
| Variables.SetVar | src/cpp.cpp:600-607 | a write is two bytes, `set_global` exactly for an index below the globals and `set_local` otherwise |
| Variables.VarIndexRoundTrip | src/cpp.cpp:600-607 | an index below the globals is read and written as a global, any other as a local shifted by the globals, and both instructions decode to the same index |
| Variables.GetVarInjective | src/cpp.cpp:669-675 | two different variables are never read by the same instruction |
| Expression.Flush | src/cpp.cpp:678-681 | a queued operator writes exactly one byte, and nothing is written when nothing is queued |
| Expression.RunIsPostfix | src/cpp.cpp:664-711 | the emitter writes exactly the reference postfix order: each operator moved behind the operand that follows it, and one with no operand after it never written |
| Expression.NothingQueued | src/cpp.cpp:678-681 | an empty queued operator (0) writes nothing, so starting with nothing queued is the reference postfix order of the items alone |
| Expression.Run | src/cpp.cpp:678-711 | at most one operator is pending: the starting one after no items, none after an operand, and the last operator after an operator |
| Expression.RunAppend | src/cpp.cpp:653-715 | compiling two consecutive runs of tokens equals compiling the first and then the second with what the first left queued |
| Expression.TrailingOperatorHeld | src/cpp.cpp:704-711 | a new operator first flushes the pending one and is itself only queued |
| Expression.LeftToRight | src/cpp.cpp:706 | `2 + 3 * 4` emits 2, 3, add, 4, mul: no precedence |
| Expression.LookupItems | src/cpp.cpp:667-683 | an identifier yields at most one operand per table entry searched |
| Expression.LookupReadsMatches | src/cpp.cpp:667-683 | an identifier emits one read per entry whose hash matches, in index order; nothing when none matches |
| Expression.LiteralText | src/cpp.cpp:686-689 | the text handed to stof is the token, without its last character exactly when that is `f` |
| Expression.IsNumberLiteral | src/cpp.cpp:684 | a literal starts with `-`, `.` or a digit, and one starting with `-` spans more than that sign; every token starting with `.` or a digit is a literal |
| Expression.TokenItems | src/cpp.cpp:654-711 | a numeric literal yields one operand of `f32.const` and four bytes; any other symbol yields one operator, `unreachable` exactly when it is not an operator character |
| Expression.FirstTerminator | src/cpp.cpp:653 | the first `;` or `)` from p, or the end of the input |
| Expression.FirstTerminatorSkips | src/cpp.cpp:653 | skipping characters that are not terminators does not move the first terminator |
| Expression.ExprItems | src/cpp.cpp:653-715 | the token loop of compileExpression never moves the read position backwards |
| Expression.ExprStopsAtTerminator | src/cpp.cpp:651-715 | compileExpression stops on the first `;` or `)` at or after its start, or at the end of the input, without consuming it |
| Expression.ExprCode | src/cpp.cpp:648-716 | what compileExpression writes is the reference postfix order of the tokens it reads |
| FunctionSpec.ScopeOf | src/cpp.cpp:648 | the tables compileExpression sees are valid |
| FunctionSpec.Compile | src/cpp.cpp:537 | a call of compileExpression only appends code and moves the read position forward, leaving the tables and the locals alone |
| FunctionSpec.StrChars | src/cpp.cpp:555-568 | the scan of a string literal ends on its closing quote or at the end of the input |
| FunctionSpec.CoutScan | src/cpp.cpp:550-572 | the scan of a `std::cout` statement ends on its `;` or at the end of the input |
| FunctionSpec.PutCalls | src/cpp.cpp:556-565 | four bytes per printed character |
| FunctionSpec.HostPrints | public/create-ui.js:57-65 | a run of put calls the host accepts prints one character per four bytes of code |
| FunctionSpec.PutCallsPrint | public/create-ui.js:57-65 | running the `put` calls written for ASCII characters prints exactly those characters, bytes from 0x40 up included |
| FunctionSpec.Inc32 | src/cpp.cpp:484 | `++scopeDepth` on a u32 adds one, wrapping to 0 at 2^32, and `--` undoes it |
| FunctionSpec.Dec32 | src/cpp.cpp:488 | `--scopeDepth` on a u32 subtracts one, wrapping from 0 to 2^32 - 1 |
| FunctionSpec.Braces | src/cpp.cpp:483-494 | `{` deepens the scope; `}` writes `end` and ends the pass exactly when the depth is back to 0; nothing else changes |
| FunctionSpec.Declare | src/cpp.cpp:503-524 | a declaration writes nothing, moves to the declared name and makes the next variable index the assignment target; in pass 0 that slot receives the name's hash and the declared type and the count grows by one (or the overflow flag is raised when all 32 slots are taken), every other slot unchanged; pass 1 leaves the tables alone |
| FunctionSpec.Statement | src/cpp.cpp:525-586 | a statement only appends code, moves forward and keeps the tables and the variable count |
| FunctionSpec.StatementCases | src/cpp.cpp:525-586 | `if` sets the `if` flag and writes the compiled condition; `drawCircle` makes function 0 the pending call and writes nothing; `std::cout` writes the put calls of all its string characters and stops on its `;`; any other name makes LastMatch of its hash the assignment target and moves past `=`; after `if` the position is where the condition's expression stopped; the tables never change |
| FunctionSpec.CoutPrintsItsStrings | src/cpp.cpp:545-572 | running the code of a `std::cout` statement with ASCII strings prints exactly the characters of those strings, in order |
| FunctionSpec.Identifier | src/cpp.cpp:496-597 | a statement that begins with an identifier only appends code and moves forward; in pass 1 it leaves the tables alone |
| FunctionSpec.Terminators | src/cpp.cpp:599-623 | the step at `;` or `)` moves exactly one character and keeps the depth |
| FunctionSpec.StatementEnds | src/cpp.cpp:599-621 | at `;` a pending target is stored with `set_global`/`set_local` of that same variable and cleared, and only otherwise is a pending call made and cleared; a `)` of an `if` writes `if` and `void` and clears the flag; at most one instruction is written |
| FunctionSpec.Step | src/cpp.cpp:482-624 | an iteration that ends the pass stays on its `}`; any other moves forward; pass 1 never changes the tables |
| FunctionSpec.RunPass | src/cpp.cpp:482-624 | a pass only appends code and moves forward; pass 1 never changes the tables |
| FunctionSpec.StepThenRun | src/cpp.cpp:482-624 | the same for a pass that has at least one iteration left |
| FunctionSpec.RunPassUnfolds | src/cpp.cpp:482-624 | a pass is one iteration followed by the rest of the pass, unless that iteration broke out of the loop |
| FunctionSpec.PassEndsAtClosingBrace | src/cpp.cpp:487-494 | a pass ends at the end of the input or on the `}` that brought the depth back to 0, with that brace's `end` as the last byte written |
| FunctionSpec.Params | src/cpp.cpp:441-470 | the parameter scan keeps the entries before its start and stops on `)` or at the end of the input |
| FunctionSpec.ParamList | src/cpp.cpp:441-470 | reference list of the parameters, each the hash of its name and its type, in source order |
| FunctionSpec.ParamsRecordInOrder | src/cpp.cpp:441-470 | the k-th parameter lands in slot total + k with its hash and type, and the count grows by the number of parameters; with more parameters than free slots the count stops at 32 and the overflow flag is raised |
| FunctionSpec.PatchCount | src/cpp.cpp:628 | patching the local count leaves the length unchanged |
| FunctionSpec.Pairs | src/cpp.cpp:631-634 | two bytes per parameter or local |
| FunctionSpec.PairsListTypes | src/cpp.cpp:631-634 | the k-th entry is `1` followed by the type of variable `lo + k` |
| FunctionSpec.LocalHeaderListsVariables | src/cpp.cpp:627-634 | after pass 0 the count byte holds the number of parameters and locals (when pass 0 wrote anything) and exactly one `(1, type)` entry follows for each of them, in index order, parameters first |
| FunctionSpec.PatchSize | src/cpp.cpp:642-644 | patching a size field changes only its two bytes |
| FunctionSpec.PatchedSizeDecodes | src/cpp.cpp:642-644 | the patched field decodes, as two-byte LEB128, to the number of bytes after it whenever that is below 16384 |
| FunctionSpec.AfterPassZero | src/cpp.cpp:627-637 | pass 1 starts from the beginning of the body with the output of pass 0 and the local header after it |
| FunctionSpec.FunctionStart | src/cpp.cpp:434-476 | both passes start after the two placeholder bytes and the parameters |
| FunctionSpec.CompileFunction | src/cpp.cpp:432-645 | compiling a function only appends to the output: at least its two size bytes |
| FunctionSpec.BodySizeDecodes | src/cpp.cpp:641-644 | the function's size field decodes to the number of bytes of its body whenever that is below 16384, and the output before the function is untouched |
| ModuleSpec.Name | src/cpp.cpp:7 | `INSERT_LIT` writes a length byte and the characters |
| ModuleSpec.ImportSection | src/cpp.cpp:215-235 | 43 bytes: the Import id, a size byte holding the number of bytes after it, and three imports |
| ModuleSpec.ExportSection | src/cpp.cpp:353-369 | 20 bytes: the Export id, a two-byte size field holding the number of bytes after it, and two exports |
| ModuleSpec.ImportSectionSize | src/cpp.cpp:215-235 | the patched Import size byte decodes to the 41 bytes after it |
| ModuleSpec.ExportSectionSize | src/cpp.cpp:353-369 | the patched two-byte Export size decodes to its 17 payload bytes |
| ModuleSpec.FixedSectionSizes | src/cpp.cpp:182-252 | the hard-coded sizes of the Type (23), Function and Memory sections equal the bytes written after them |
| ModuleSpec.GlobalEntry | src/cpp.cpp:300-327 | a global entry is its type, the mutable flag and, last, `end` |
| ModuleSpec.GlobalEntryTyped | src/cpp.cpp:300-327 | a global of each value type is mutable and initialised by the constant instruction of its own type with a zero immediate of the width of that type |
| ModuleSpec.GlobalBytes | src/cpp.cpp:300-327 | at least three bytes per global |
| ModuleSpec.SkipBody | src/cpp.cpp:282-295 | the skip over a function body ends on a `}` or at the end of the input |
| ModuleSpec.DeclarationAt | src/cpp.cpp:266-276 | reading a declaration moves past its first word, and not past the end of the input |
| ModuleSpec.GlobalScan | src/cpp.cpp:265-341 | the scan keeps the tables valid and only adds to the count of globals |
| ModuleSpec.GlobalScanDeclared | src/cpp.cpp:278-340 | the same once the two words at p have been read |
| ModuleSpec.GlobalsCounted | src/cpp.cpp:297-299 | with no overflow, every type listed in the Global section is recorded, in order, in the table slot of its index |
| ModuleSpec.DeclaredCounted | src/cpp.cpp:297-299 | the same from a declaration already read |
| ModuleSpec.CountedRecord | src/cpp.cpp:297-299 | recording one global keeps that correspondence |
| ModuleSpec.GlobalSection | src/cpp.cpp:256-258 | the Global id, then a size byte holding the bytes after it and a count byte holding the number of globals while each fits in a byte, then the entries |
| ModuleSpec.GlobalSectionDecodes | src/cpp.cpp:344-345 | when the section fits in 127 bytes, its size byte decodes to the bytes after it and its count byte to the number of globals |
| ModuleSpec.FindCall | src/cpp.cpp:383-385 | the function search never moves backwards |
| ModuleSpec.FindCallFirst | src/cpp.cpp:383-393 | the search stops at the first `(` preceded by the name, or at the end of the input when there is none |
| ModuleSpec.Sections | src/cpp.cpp:182-369 | the Type, Import, Function, Memory, Global and Export sections, in ascending id order, at their fixed offsets |
| ModuleSpec.Prefix | src/cpp.cpp:177-375 | everything before the functions starts with the magic number and version and ends with the Code section's id and three more bytes |
| ModuleSpec.MainAndUpdate | src/cpp.cpp:382-396 | compiling `main` and then `update` only appends to the output |
| ModuleSpec.Framed | src/cpp.cpp:399-401 | the Code section's size field is the two bytes after its id |
| ModuleSpec.FramedHolds | src/cpp.cpp:371-401 | after patching, the module starts with the magic number and version, the Code size field decodes to the bytes after it whenever they are fewer than 16384, and everything before that field is the prefix unchanged |
| ModuleSpec.ModuleBytes | src/cpp.cpp:169-401 | the module for a source text, with the tables valid and the Code size field inside the output |
| ModuleSpec.ModuleWellFramed | src/cpp.cpp:371-401 | every module the compiler produces is framed in that way |
| CppCompiler.PatchSizeInPlace | src/cpp.cpp:399-401 | the two byte stores of a patch are the value-level PatchSize |
| CppCompiler.PutCallsAppend | src/cpp.cpp:555-568 | the put calls for two strings are those of each, one after the other |
| CppCompiler.PutCallsExtend | src/cpp.cpp:555-568 | writing the put calls of more characters after those already written is writing the put calls of all of them |
| CppCompiler.GlobalBytesAppend | src/cpp.cpp:300-327 | one more global appends its entry |
| CppCompiler.ExprItemsStep | src/cpp.cpp:653-715 | one turn of the token loop: the token at the next non-blank position, then the rest |
| CppCompiler.ExprItemsDone | src/cpp.cpp:653 | the token loop ends when the next non-blank character is a terminator or is missing |
| CppCompiler.LookupRunStep | src/cpp.cpp:667-682 | one more table entry adds a read and the queued operator when its hash matches, and nothing otherwise |
| CppCompiler.LastMatchStep | src/cpp.cpp:576-580 | one more entry of the assignment search |
| CppCompiler.StrCharsStep | src/cpp.cpp:555-568 | one character of a string literal: `\n` becomes a newline byte, anything else its own byte |
| CppCompiler.CoutScanStep | src/cpp.cpp:550-572 | one character of a `std::cout` statement |
| CppCompiler.EmitString | src/cpp.cpp:555-568 | the loop writes one put call per character of the literal and stops on its closing quote |
| CppCompiler.EmitCout | src/cpp.cpp:545-572 | the loop writes the put calls of every string literal of the statement and stops on its `;` |
| CppCompiler.SkipFunctionBody | src/cpp.cpp:282-295 | the brace-counting loop computes SkipBody |
| CppCompiler.FindFunction | src/cpp.cpp:383-393 | the search loops compute FindCall |
| CppCompiler.ReadDeclaration | src/cpp.cpp:266-276 | the reads of the two words compute DeclarationAt |
| CppCompiler.GlobalScanSkips | src/cpp.cpp:280-295 | the words `main` and `update` make the scan go on past the function's body |
| CppCompiler.GlobalScanRecords | src/cpp.cpp:296-336 | any other pair of words is a global: its type comes first, then the rest of the scan from the next line |
| CppCompiler.GlobalDeclared | src/cpp.cpp:296-336 | a global declaration moves one type from the rest of the scan to the part already written |
| CppCompiler.EntryAppended | src/cpp.cpp:300-327 | writing one more entry extends the bytes already written for the globals |
| CppCompiler.PatchSectionSize | src/cpp.cpp:367-369 | patching the Export size field of a section appended to the output yields that section |
| CppCompiler.PrefixRegroups | src/cpp.cpp:177-375 | the parts written one after another make up the prefix |
| CppCompiler.Compiler.constructor | src/cpp.cpp:19-21 | both tables are zero-initialised and there are no globals |
| CppCompiler.Compiler.RecordVariable | src/cpp.cpp:297-299 | the stores into the tables are Record on the tables, nothing else changes |
| CppCompiler.Compiler.CollectParameters | src/cpp.cpp:440-470 | the parameter loop computes Params on the tables and the read position |
| CppCompiler.Compiler.ScopeBraces | src/cpp.cpp:483-494 | the brace handling computes Braces |
| CppCompiler.Compiler.DeclareVariable | src/cpp.cpp:503-524 | the declaration code computes Declare |
| CppCompiler.Compiler.CompileStatement | src/cpp.cpp:525-586 | the pass-1 statement code computes Statement |
| CppCompiler.Compiler.CompileCondition | src/cpp.cpp:529-538 | the `if` branch sets the flag, moves past the `(` and computes Compile of the condition |
| CppCompiler.Compiler.SelectTarget | src/cpp.cpp:572-584 | the assignment branch computes Statement: LastMatch of the hash becomes the target and reading resumes after `=` |
| CppCompiler.Compiler.CompileIdentifier | src/cpp.cpp:496-597 | the identifier code computes Identifier |
| CppCompiler.Compiler.EndStatement | src/cpp.cpp:599-623 | the `;`/`)` code computes Terminators |
| CppCompiler.Compiler.PassStep | src/cpp.cpp:482-624 | one iteration of the loop body computes Step |
| CppCompiler.Compiler.CompilePass | src/cpp.cpp:482-624 | the loop computes RunPass |
| CppCompiler.Compiler.EmitLocalHeader | src/cpp.cpp:631-634 | the loop appends Pairs for the parameters and locals |
| CppCompiler.Compiler.FirstPass | src/cpp.cpp:432-638 | placeholder, parameters, pass 0, count patch and local header compute AfterPassZero of FunctionStart |
| CppCompiler.Compiler.CompileAndInsertFunction | src/cpp.cpp:432-645 | the whole of compileAndInsertFunction computes CompileFunction |
| CppCompiler.Compiler.PatchSizeField | src/cpp.cpp:642-644 | the two stores of a size patch compute PatchSize |
| CppCompiler.Compiler.DeclareGlobal | src/cpp.cpp:296-337 | a global's entry and table record extend what is written towards the whole scan |
| CppCompiler.Compiler.ScanDeclaration | src/cpp.cpp:266-338 | one pair of words of the scan keeps the output equal to the entries of the types seen so far, the tables and count on track for the whole scan |
| CppCompiler.Compiler.ScanGlobals | src/cpp.cpp:262-342 | the scan loop computes GlobalScan: its tables, its count and one entry per global |
| CppCompiler.Compiler.EmitReads | src/cpp.cpp:667-683 | the lookup loop writes Run of LookupItems and leaves that run's pending operator |
| CppCompiler.Compiler.EmitToken | src/cpp.cpp:654-714 | one token writes Run of TokenItems |
| CppCompiler.Compiler.CompileExpression | src/cpp.cpp:648-716 | compileExpression writes ExprCode and stops where ExprItems stops |
| CppCompiler.Compiler.FindTarget | src/cpp.cpp:576-580 | the assignment search computes LastMatch, so by LastMatchWins the last matching variable wins |
| CppCompiler.Compiler.EmitImportSection | src/cpp.cpp:215-235 | the Import section's bytes, its size patched |
| CppCompiler.Compiler.EmitGlobalSection | src/cpp.cpp:256-348 | the Global section for GlobalScan, with the tables and count it leaves and the read position reset |
| CppCompiler.Compiler.EmitExportSection | src/cpp.cpp:353-369 | the Export section's bytes, its size patched |
| CppCompiler.Compiler.EmitPrefix | src/cpp.cpp:177-375 | the whole prefix for the globals the scan finds |
| CppCompiler.Compiler.CompileMainAndUpdate | src/cpp.cpp:382-396 | both searches and both compilations compute MainAndUpdate |
| CppCompiler.Compiler.EmitCode | src/cpp.cpp:382-401 | the functions and the patched Code size compute Framed |
| CppCompiler.Compiler.Assemble | src/cpp.cpp:177-401 | the output is ModuleBytes for the tables as they were |
| CppCompiler.Compiler.Start | src/cpp.cpp:172-175 | the count of globals is reset and the output begins empty, the tables keep their entries |
| CppCompiler.Compiler.GetWasmFromCpp | src/cpp.cpp:169-428 | the output is ModuleBytes of the source and the tables the previous run left, and the result packs the address above the 32-bit size |
| Wasm.ByteOf | src/cpp.cpp:603 | a store through a `u8` keeps a value below 256 unchanged |
| Wasm.SizeField | src/cpp.cpp:368-369 | two bytes, the first with its continuation bit set |
| Wasm.DecodeUnsigned | src/cpp.cpp:368-369 | a decoded LEB128 value never claims more bytes than there are |
| Wasm.DecodeSigned | src/cpp.cpp:556-561 | the same for signed LEB128 |
| Wasm.SizeFieldDecodes | src/cpp.cpp:399-401 | a two-byte size field decodes to its value exactly when that value is below 16384 |
| Wasm.OneByteFieldDecodes | src/cpp.cpp:235 | a one-byte size field decodes to its value exactly when that value is below 128 |
| Wasm.HostPut | public/create-ui.js:57-65 | `put` leaves a non-negative number alone and maps a signed byte to an ASCII code |
| Wasm.PutRecoversAsciiByte | public/create-ui.js:57-65 | the raw byte of an ASCII character, decoded as the signed immediate of `i32.const` and adjusted by `put`, is that character again |
| Wasm.SizeWord | src/cpp.cpp:423 | the 32-bit size is the size itself below 2^16 |
| Wasm.Pack | src/cpp.cpp:422-427 | when address and size each fit in 16 bits, `>>> 16` of the packed word recovers the address and `& 0xFFFF` the size |
| StdoutBuffer.LastIndexOf | compiler.mjs:9 | `lastIndexOf` finds the last newline, or -1 with no newline at all |
| StdoutBuffer.SplitAfterLastNewline | compiler.mjs:9-13 | the released text ends in a newline, what stays holds none, and together they are the whole text |
| StdoutBuffer.PassOn | compiler.mjs:11-13 | releasing a head of the buffer and keeping the tail loses and reorders nothing |
| StdoutBuffer.ConcatAppend | compiler.mjs:11 | one more call of `stdout` adds its string at the end of everything passed on |
| StdoutBuffer.LineBuffer.constructor | compiler.mjs:4 | the buffer starts empty |
| StdoutBuffer.LineBuffer.BufferedPuts | compiler.mjs:5-15 | what was released, then the buffer, is everything received; the buffer holds no newline; at most one string is released, ending in a newline and holding everything up to the last newline; without a newline nothing is released and the buffer is the old one plus the characters |
| StdoutBuffer.LineBuffer.FlushStdout | compiler.mjs:18-23 | a non-empty buffer is released in one call and emptied; an empty one releases nothing, so a second flush is a no-op |

## Left out

- The input's encoding. compiler.mjs:96 encodes the source text as UTF-8 before the compiler
  reads it byte by byte. In this model each `char` of the input stands for one of those bytes,
  and so has a code below 256. A non-ASCII character is therefore given to the model as its
  UTF-8 bytes, one `char` each. The encoding step itself is not modelled.
- `stof` and `insertF32` (src/cpp.cpp:46-49, 718-749) compute f32 values and their raw bytes. The
  model takes the four bytes of a literal as a given function `lit` of the literal's text, after
  the trailing `f` is removed.
- The diagnostics written through `PRINT_LIT`, `puts`, `putnum` and `put` (for example
  src/cpp.cpp:329-331, 513-519) are host calls with no effect on the output, and are not modelled.
- `findNextIdentifierOrNumericLiteral` and `findNextOperator` (src/cpp.cpp:97-113) are never
  called.
- Reads outside the input. The code has no end check in `findNextIdentifier`, the brace skip,
  the newline skip, the `while (*readPos++ != c)` loops or `findTokenEnd`, and can read into the
  module it is writing. The model stops every scan at the end of the input, and a read there
  yields NUL (the first byte of the module). The input and the output are separate sequences,
  so no write can change the input. It does not produce an "unterminated construct" failure.
- Variable-table overflow. A 33rd variable makes the code write past `varHashes` and `varTypes`.
  The model writes nothing, keeps the count, and raises an `overflow` flag that the compiler
  clears when it starts a module.
- Wasm.SizeWord: addresses are not modelled. The size is the output's length taken modulo
  2^32, and the caller passes the module's address in as `moduleAddress`.
- The two bytes skipped by `writePos += 2` (src/cpp.cpp:355) hold whatever memory held before.
  The model writes zeros there; both bytes are then overwritten by the patch at lines 367-369.
- A write to `functionBodySize[2]` when pass 0 wrote nothing lands at `writePos` and is
  overwritten by the next byte. The model treats it as no write (`PatchCount`).
- The `HASH(...)` constants are written as their values, and each is proved equal to the hash
  of its name.
- The rest of compiler.mjs is promise, `fetch` and `WebAssembly.instantiate` plumbing, and a
  regular-expression preprocessor. It is not part of this model, and neither are the browser
  UI files.
- StdoutBuffer.LineBuffer.BufferedPuts: the `stdout` callback is modelled as a log of the
  strings handed to it. What the host does with them is not modelled.
