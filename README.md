# A verified model of a Brainfuck toolchain

This project models the Rust Brainfuck interpreter in `src/main.rs`, a
four-stage pipeline:

- **Lexer** (`tokenize`, `map_token`): keeps the eight operator characters
  `+ - > < . , [ ]`, one token each, and drops everything else.
- **Parser** (`parse_root`, `parse_block`): recursive descent over one shared
  token iterator. Each `[ ... ]` becomes a `Block`. A stray `]` panics with
  "unexpected ]". A `[` left open at the end panics with "missing ]".
- **Lowering pass** (`tree_walker`, `walk_subtree`): flattens the tree into
  bytecode. A block's body is appended, then a `NegativeJump(block_start + depth)`.
  Then a `PositiveJump(len + depth)` is inserted at `block_start`. `depth` counts
  the enclosing blocks; each of them still has to insert its own `PositiveJump`
  at or before this block.
- **Virtual machine** (`interpret` and its helpers): a tape of 30000 byte cells.
  The pointer and the cells wrap by one step. Input is line-buffered.
  `program_counter += 1` follows every instruction, jumps included.

The Dafny modules follow these stages: `Lexer` (lexer.dfy), `Parser`
(parser.dfy), `Bytecode` and `Lowering` (bytecode.dfy, lowering.dfy), `Machine`
(machine.dfy). `Pipeline` (pipeline.dfy) chains them as `main` does.
`Structured` (structured.dfy) runs the parse tree directly, as nested loops, and
relates that run to the machine's.
`Wrappers` (wrappers.dfy) holds `Option`.

How each stage is modelled:

- Pure Rust functions are Dafny functions.
- The parser and lowering loops are methods with loops. Each is proved against a
  reference function:
  - the parser against `Unparse`, which writes a tree back as tokens, and `Net`,
    the bracket balance of a token sequence;
  - the lowering pass against `CompileElement`, which places every instruction at
    its final address directly.
- The shared `&mut IntoIter` of the parser is a cursor. The cursor is passed in
  and handed back.
- `interpret` is a method over a 30000-cell array, proved equal to the
  functional `Run` built from `Step`.
- A panic is an error value that the callers pass upwards.

Results:

- **The depth offset is correct for every nesting shape.** `WalkSubtree` returns
  `bytecode + CompileElement(Block(block), |bytecode| + depth)` for every tree,
  and `CompileSeqMatched` proves the pairing for every tree.
- **Lowering preserves behaviour.** The machine, run on the lowered code of any
  tree, ends as the structured run of that tree ends. Both halt in the same
  state, panic with the same fault, or run out of fuel at the same point.
  The structured interpreter tests a loop's cell on entry and after each pass of
  the body, and never looks at a program counter. Each simple statement has its
  own effect there: `+` and `-` change the current cell by one, `>` and `<` move
  the pointer by one. `SimpleEffect` proves that the instruction the lowering
  table picks for a statement has that effect on the machine. The machine charges one step
  per instruction, and the structured interpreter charges the same steps.
- **A `PositiveJump` targets its matching `NegativeJump` itself**, not the
  instruction after it. The `+= 1` that follows every instruction then lands
  just past the loop. Likewise a `NegativeJump` targets its `PositiveJump`, and
  execution resumes at the first body instruction. The model follows the code.

## Model

| member | source | states |
|---|---|---|
| `Lexer.MapToken` | src/main.rs:87-99 | a token is produced exactly for the eight operator characters, and it is the token that character stands for |
| `Lexer.TokenizeKeepsOperators` | src/main.rs:84-86 | the tokens written back as text are exactly the operator characters of the source, in order, one token per character |
| `Lexer.TokenizeUntokenize` | src/main.rs:84-99 | lexing the text of any token sequence gives that sequence back |
| `Lexer.TokenizeAppend` | src/main.rs:84-86 | lexing distributes over concatenation: each character is classified on its own |
| `Lexer.TokenizeNoOperators` | src/main.rs:84-86 | text without operator characters gives no tokens |
| `Parser.SimpleElement` | src/main.rs:72-77 | a non-bracket token parses to the statement that is written as exactly that token |
| `Parser.ParseBlock` | src/main.rs:68-83 | on success, the tokens taken are the block's body written out followed by its `]`; otherwise the failure is "missing ]", all tokens are consumed, and no `]` from the start onwards is unmatched |
| `Parser.ParseRoot` | src/main.rs:50-66 | parsing succeeds exactly on balanced tokens, and the tree then writes back to the input tokens; "unexpected ]" exactly when some prefix closes more blocks than it opens; "missing ]" exactly when none does and more blocks are opened than closed |
| `Parser.UnparseBalanced` | src/main.rs:21-29 | every tree is written as a balanced token sequence |
| `Parser.UnparseInjective` | src/main.rs:50-83 | a token sequence is the writing of at most one tree, so the tree `ParseRoot` returns is the only possible parse |
| `Parser.SameBlockLength` | src/main.rs:68-83 | two blocks at the start of the same tokens end at the same `]`, where the depth first returns to zero |
| `Lowering.Simple` | src/main.rs:125-130 | a simple statement lowers to one instruction that is not a jump; value and pointer changes are by ±1; `Print` and `Read` lower to themselves and nothing else does |
| `Lowering.WalkSubtree` | src/main.rs:117-142 | push, insert and the `+ depth` offset yield the input followed by the block's code at the address it has once the `depth` enclosing inserts are done |
| `Lowering.TreeWalker` | src/main.rs:100-116 | the bytecode is the tree's code placed at address 0 |
| `Lowering.CompileSeqPointwise` | src/main.rs:100-142 | instruction i is the lowering of token i: one per simple statement, body plus two jumps per block, so the length is the token count |
| `Lowering.LoweringUnitSteps` | src/main.rs:104-107 | lowering emits only `ChangeValue(±1)` and `MovePointer(±1)` |
| `Lowering.MatchedWrap` | src/main.rs:136-140 | a guard jump and a back jump around well-formed code form a matched, nested loop |
| `Lowering.MatchedAppend` | src/main.rs:123-135 | sibling code that is well formed at its own address stays well formed when concatenated |
| `Lowering.CompileSeqMatched` | src/main.rs:136-140 | for every tree, every `PositiveJump` at i targets some j > i within the code, the instruction at j is `NegativeJump(i)` (and conversely), and loops nest |
| `Machine.ChangeValue` | src/main.rs:204-213 | defined exactly when the sum is within one step of 0..255, and then the result is the sum modulo 256 (255+1 is 0, 0-1 is 255) |
| `Machine.MovePointer` | src/main.rs:194-203 | defined exactly when the sum is within one step of 0..29999, and then the result is the sum modulo 30000 and below 30000 |
| `Machine.PositiveJump` | src/main.rs:182-187 | the destination when the cell is zero, else the current position |
| `Machine.NegativeJump` | src/main.rs:188-193 | the destination when the cell is not zero, else the current position |
| `Machine.UnitStepsNeverPanic` | src/main.rs:194-213 | a change of ±1 never reaches either panic |
| `Machine.ReadLine` | src/main.rs:173-181 | the line handed over is ASCII, and the lines left are what follows it in the input |
| `Machine.ReadLineSkips` | src/main.rs:173-181 | the line handed over is the first ASCII line, and every line before it is skipped as not ASCII; with no ASCII line left it is the empty end-of-input line |
| `Machine.Initial` | src/main.rs:144-147 | zeroed tape, pointer and counter at zero, empty buffer and output; the input is the one given |
| `Machine.Execute` | src/main.rs:149-158 | an instruction other than a jump keeps the pointer on the tape and leaves the counter alone; only `Print` adds output, and it adds the current cell; each panic belongs to its instruction |
| `Machine.Step` | src/main.rs:148-166 | the pointer stays on the tape; every non-jump instruction is followed by pc+1; only `Print` adds output, and it adds the current cell; `Print` and the jumps never panic; each panic belongs to its instruction |
| `Machine.ChangeValueStep` | src/main.rs:204-213 | `ChangeValue(d)` panics exactly when the cell plus d leaves -1..256; otherwise the cell becomes the sum modulo 256, pc moves on by one, and nothing else changes |
| `Machine.MovePointerStep` | src/main.rs:194-203 | `MovePointer(d)` panics exactly when the pointer plus d leaves -1..30000; otherwise the pointer becomes the sum modulo 30000, pc moves on by one, and nothing else changes |
| `Machine.PrintStep` | src/main.rs:169-172 | `Print` never panics; it appends the current cell to the output, moves pc on by one, and changes nothing else |
| `Machine.Run` | src/main.rs:148-167 | a run halts exactly when pc is at or past the end of the code; it keeps the pointer on the tape and only appends to the output |
| `Machine.Interpret` | src/main.rs:143-168 | the in-place loop over the tape array gives the outcome of `Run` from the initial state |
| `Machine.UnitStepsOnlyInputFaults` | src/main.rs:150-151 | on code with only ±1 steps, no run ever ends in the two range panics |
| `Machine.ForwardJumpStep` | src/main.rs:159-166 | on matched code, a `PositiveJump` changes only pc: past its `NegativeJump` when the cell is zero, into the body otherwise |
| `Machine.BackwardJumpStep` | src/main.rs:162-166 | on matched code, a `NegativeJump` changes only pc: to the first body instruction after its `PositiveJump` when the cell is not zero, past it otherwise |
| `Machine.ReadLineStream` | src/main.rs:173-181 | `read` takes the next line of the ASCII byte stream, and gives the empty line only when that stream is exhausted |
| `Machine.ReadTakesNextByte` | src/main.rs:153-158 | `Read` stores the next pending input byte and removes it; the buffer is refilled only when empty; it panics exactly when no input is left (when no line is empty); nothing else changes |
| `Pipeline.RunProgram` | src/main.rs:44-47 | an unbalanced program stops with the parser's panic; any other program lowers to one instruction per token with matched jumps and unit steps; its run can panic only on exhausted input, and it is the structured run of its tree |
| `Pipeline.NoOpProgram` | src/main.rs:44-47 | text without operators parses to the empty tree, lowers to no code and halts at once with no output |
| `Pipeline.UnmatchedBracketPrograms` | src/main.rs:50-83 | `[+` fails with "missing ]" and `+]` with "unexpected ]" |
| `Pipeline.EchoProgramLowers` | src/main.rs:84-142 | `,.,.` parses to read, print, read, print and lowers to the same four instructions |
| `Pipeline.EchoProgramRuns` | src/main.rs:143-181 | given the line "AB", that code prints "AB" and halts |
| `Structured.SimpleEffect` | src/main.rs:125-130 | the instruction a simple statement lowers to has that statement's own effect on the machine: `+` and `-` change the current cell by one with wrap-around, `>` and `<` move the pointer by one, `.` prints the cell and `,` reads |
| `Structured.SeqAgrees` | src/main.rs:117-166 | started at the code of any statement sequence placed at any address, the machine does what the structured run does: it continues just past that code in the same state with the same fuel, or it panics or runs out of fuel as the structured run does |
| `Structured.LoweringPreservesBehaviour` | src/main.rs:100-168 | the machine run of a lowered tree halts, panics with the same fault, or runs out of fuel, in the same state as the structured run of the tree, up to the program counter |

## Left out

- `main` and `get_path` (src/main.rs:39-48, 215-227): opening the file and
  parsing arguments with clap are I/O and foreign-library calls. `RunProgram`
  starts from the program text.
- `print` (src/main.rs:169-172): the write to standard output and the flush are
  modelled as appending the cell value to the output sequence. The output is the
  sequence of characters printed, one per cell value. It is not the bytes that
  reach standard output: `value as char` is written in UTF-8, so a cell of 128
  to 255 is written as two bytes.
- `read` (src/main.rs:173-181): blocking `stdin().read_line` is modelled as taking
  lines from a given sequence of lines, each given as bytes. The end of input is
  an empty line, as `read_line` returns at end of file. A line that is valid UTF-8
  but not ASCII is skipped and the next line is read, as in the source.
- `Machine.ReadLine`: each input line stands for what `read_line` leaves in the
  string, not for the raw bytes of standard input. On a line that is not valid
  UTF-8, `read_line` fails and leaves the string empty. `read` then returns no
  bytes, and the `Read` instruction panics. In the model such a line is given as
  an empty line, which has the same effect. A line with a byte of 128 or more is
  therefore skipped only when it stands for valid UTF-8.
- Guest programs need not terminate, so `Run` and `Interpret` take a step budget
  (`fuel`). A run that uses the budget up ends as `OutOfFuel`.
- Integer widths: deltas (`i32`), indices (`usize`) and the `try_into().unwrap()`
  conversions are mathematical integers. The lowering pass only emits ±1, the
  pointer stays below 30000 and jump targets stay within the code, so the
  overflows those types allow do not arise on lowered code.
  `program_counter += 1` overflowing at `usize::MAX` is not modelled.
- `Machine.MovePointer`: does not model the panic of `current.try_into()` for a
  pointer above `i32::MAX`, because the machine's pointer is always below 30000.
- Call-stack depth: the parser and lowering recursion is unbounded here. A stack
  overflow on very deep nesting is not modelled.
