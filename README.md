# An interpreter for a renamed Brainfuck, modelled in Dafny

This project models a small interpreter for a token-renamed Brainfuck. It
covers the interpreter's string parser, its execution engine and its
instruction-list helpers. The eight tokens are:

| token | meaning |
|---|---|
| `t` / `m` | add / subtract on the current cell |
| `L` / `H` | move right / left |
| `T` | output |
| `M` | input |
| `h` / `l` | loop start / loop end |

A ninth value, the break token, asks for a debug dump.

- **Parser** (`parser.dfy`, module `Parser`). It scans a region of a C
  string.
  - It turns each run of `t`/`m` or `L`/`H` into one node with a signed net
    difference, and each run of `T` or `M` into one node that counts the
    repeats.
  - Every other character is a comment: it gives no node but ends a run.
  - An `h` parses its body recursively from the next position, and the
    caller's loop then skips the closing `l`.
  - A list always ends in an `l` sentinel node.
  - The specification is the pair of functions `Step` (one pass of the
    scanning loop) and `ParseFrom` (the list and the position where the
    scan stops). The methods `ScanAxisRun`, `ScanRepeatRun`,
    `ParseCharacterAt` and `ParseSubstringIncremental` carry the loops of
    `html_parse_substring_incremental` and are proved equal to them.
- **Execution engine** (`engine.dfy`, module `Engine`).
  - `Apply`, `Run` and `Loop` give the meaning of an instruction list on a
    `Machine`: the tape, the tape index, the values still to be returned by
    the input handler, and the values the output handler has received.
  - The class `Context` is the execution context. Its `Execute`,
    `ExecuteLoop`, `ExecuteInstruction`, `Emit` and `Receive` methods update
    the tape array, the index and the handler logs in place. Each is proved
    to end in the state the functions give.
- **Instruction list** (`liststate.dfy`, module `ListState`). The class
  `State` holds the top-level chain of a program, with `root` and `head` as
  positions in it. It has `Add`, `InsertAfter` and `Remove`.
- **Constants and records** (`html.dfy`, module `Html`): the token table,
  `HTML_TAPE_SIZE`, `HTML_EOF_BEHAVIOR`, the break value and the
  instruction record.
- **Whole programs** (`programs.dfy`, module `Programs`): lemmas that chain
  the parser, the engine and the list.

Modelling choices:

- **Characters and bytes.**
  - A character stands for one byte of a C string, and `char` is signed.
    The break token −10 is therefore the byte 0xF6, written `'ö'`.
  - Reading at or past the end of the sequence reads the terminator.
  - Cells are `unsigned char`, so every store is taken modulo 256.
  - The input handler returns a signed `char`, so the byte 0xFF is the same
    value as EOF (`ByteFFReadsAsEof`).
- **Fatal errors.** A bounds error ends the C process with `exit`. The model
  returns `Fatal(Overrun)` or `Fatal(Underrun)` and leaves the machine as it
  was before the failing instruction.
- **Loops and fuel.** A `while`-nonzero loop can run forever. Each loop
  iteration spends one unit of a `fuel` parameter, and running out is the
  status `OutOfFuel`. `RunFuelMonotone` shows that more fuel changes no
  result that did not run out.
- **The stop flag.** `shouldStop` is a field of the context. Nothing in
  `html_execute` sets it, so it is constant during a call.
- **Negative differences.** The bounds check of a move casts the difference
  to `unsigned long`, so it rejects every negative difference. A mixed run
  with more `H` than `L`, such as `LHH`, parses to an `L` node with a
  negative difference. Such a program therefore always fails with an
  overrun, even when the cell to its left exists (`NegativeMoveFaults`,
  `NetLeftRunFaults`).

## Model

| member | source | states |
|---|---|---|
| Html.TokensDistinct | include/html.h:26-37 | the eight tokens are pairwise distinct, neither the terminator nor the break value is a token, and the break value is no ASCII character |
| Parser.StrLen | src/html.c:349-350 | the region of a negative `end` stops at the first terminator: no terminator comes before it, and the character there is one when it is inside the string |
| Parser.RunStop | src/html.c:366-402 | an inner run scan consumes only characters of the run, stays in the region, and stops at the first position that does not continue the run |
| Parser.RunStopAt | src/html.c:366-402 | the run scan stops exactly at the first position inside the region that does not continue the run |
| Parser.Step | src/html.c:359-418 | one pass of the scanning loop gives at most one node, and gives one exactly for a token or the break value, typed by the character at the position; an `h` node has difference 1 |
| Parser.Parse | src/html.c:313-316 | the parse of a whole string is well formed: it ends in exactly one sentinel, with only emitted nodes before it, in every loop body too |
| Parser.ParseFrom | src/html.c:345-427 | the scan never moves backwards and stops only at the end of the region, at a terminator or at an `l` |
| Parser.ScanAxisRun | src/html.c:363-398 | the `t`/`m` and `L`/`H` inner loop stops on the run's last character and yields the count of the first character minus the count of its opposite |
| Parser.ScanRepeatRun | src/html.c:399-407 | the `T`/`M` inner loop stops on the last exact repeat and yields the run's length |
| Parser.ParseCharacterAt | src/html.c:357-420 | one pass of the `switch` appends the nodes and consumes the characters that one step of the parse specification does: one node per run or loop, none for a comment character |
| Parser.ParseSubstringIncremental | src/html.c:345-427 | the list built and the position handed back equal the parse of the region and its stop position, including the early return at an `l` |
| Parser.ParseSubstring | src/html.c:328-332 | parsing from `begin` on a copy of the position gives the parse of the region starting at `begin` |
| Parser.ParseString | src/html.c:313-316 | parsing the whole string gives the parse of the region up to the terminator |
| Parser.ParseCharacter | src/html.c:435-458 | a node is made exactly for the eight tokens and the break value, with that type, difference 1, and no loop body; any other character gives no node |
| Parser.SingleCharacter | src/html.c:345-458 | a one-character string parses to the node the single-character parser makes, then the sentinel; a lone `l` is the sentinel itself, and a lone `h` gets an empty body |
| Parser.ParseWellFormed | src/html.c:351-425 | every parse is a non-empty list ending in exactly one `l` sentinel, with only emitted nodes before it, and the same holds for every loop body |
| Parser.AxisRun | src/html.c:363-398 | a maximal `t`/`m` or `L`/`H` run is one node typed by its first character, with difference equal to the count of the first character minus the count of its opposite, and the parse goes on after the run |
| Parser.RepeatRun | src/html.c:399-407 | a maximal `T` or `M` run is one node whose difference is the run's length |
| Parser.CommentSkipped | src/html.c:416-417 | a character outside the token set adds nothing, and the parse goes on at the next character |
| Parser.CommentOnly | src/html.c:357-425 | a region with no token and no break value parses to the sentinel alone |
| Parser.EmptyInput | src/html.c:351-355 | the empty string parses to the sentinel alone |
| Parser.CommentSplitsRun | src/html.c:363-417 | `t`, a comment character and `t` give two separate `t` nodes |
| Parser.MixedRunNetDifference | src/html.c:363-398 | a run of one axis character followed by two of its opposite is one node of the first kind with difference −1 |
| Parser.CancellingRun | src/html.c:363-398 | a run that cancels out still gives a node, with difference 0 |
| Parser.RepeatedOutput | src/html.c:399-407 | `TTT` gives one `T` node with difference 3 |
| Parser.LoopBody | src/html.c:408-413 | an `h` owns the list parsed from the next position, whose scan stops at an `l` or a terminator inside the region, and its siblings are parsed from the position after that stop |
| Parser.LoopExample | src/html.c:408-413 | `h`, one axis character and `l` give a loop node whose body is that character's node and a sentinel, and then the outer sentinel |
| Parser.NoStopReachesEnd | src/html.c:357-425 | without an `l` or a terminator in the region, the scan runs to the region's end |
| Parser.UnmatchedLoopStart | src/html.c:408-413 | an `h` whose body scan runs to the region's end, for want of an `l` left over for it, takes the rest of the region as its body, and only the sentinel follows it |
| Parser.NestedTakesOnlyLoopEnd | src/html.c:408-413 | in `hhl` the inner `h` takes the only `l`, so the outer `h` is unmatched and its body is the inner loop and a sentinel |
| Parser.ParseLocal | src/html.c:357-425 | a parse that stops inside its region depends on no character after the stop, and not on the region's end |
| Parser.StepLocal | src/html.c:357-420 | one pass of the scanning loop depends only on the characters up to the parse's stop |
| Parser.StrayLoopEnd | src/html.c:412-413 | a stray top-level `l` ends the list, and everything after it is dropped |
| Engine.Wrap | src/html.c:536-541 | a value stored into a cell differs from the written value by a multiple of 256 |
| Engine.Repeat | src/html.c:561-562 | the values `T` hands out are `k` copies of the cell, none when `k` is not positive |
| Engine.Received | include/html.h:99 | the input handler returns the next input value, or EOF once the input is exhausted |
| Engine.Remaining | include/html.h:99 | a call of the input handler consumes exactly the first value, and nothing at the end of the input |
| Engine.Store | src/html.c:567-576 | a read of EOF leaves the cell unchanged (HTML_EOF_BEHAVIOR 1), and any other value is stored modulo 256 |
| Engine.CanMoveRight | src/html.c:543-544 | a negative difference never passes the check; one that passes lands on the tape; below the limit INT_MAX minus the tape size it passes exactly when the target is below the tape size |
| Engine.CanMoveLeft | src/html.c:552-553 | a negative difference never passes the check; one that passes lands on the tape; below the limit it passes exactly when the target is not negative |
| Engine.ReadTimes | src/html.c:564-578 | `M` with difference `k` consumes exactly `k` values of the input, or all of it when it is shorter, and consumes nothing when `k` is not positive |
| Engine.Apply | src/html.c:534-607 | an instruction that goes on keeps the index on the tape, keeps the tape's size, and only extends the output; only a move can end the process |
| Engine.Run | src/html.c:526-616 | a walk keeps the index on the tape, keeps the tape's size, and only ever appends to the output |
| Engine.Loop | src/html.c:579-582 | a loop that completes leaves the current cell at 0, keeps the index on the tape, and only appends to the output |
| Engine.LoopExit | src/html.c:579-582 | a completed loop leaves the current cell at 0, and a loop entered on a zero cell runs no iteration and changes nothing |
| Engine.CellEffect | src/html.c:536-541 | `t` and `m` change only the current cell, to its value plus or minus the difference modulo 256; index, input, output and every other cell stay as they were |
| Engine.WrapAdd | src/html.c:536-538 | reducing a cell modulo 256 before adding more changes nothing modulo 256 |
| Engine.PlusCompose | src/html.c:536-538 | two `t` instructions in a row act as one whose difference is their sum |
| Engine.PlusWrapsAround | src/html.c:536-538 | adding `a` and then `256 - a` brings the cell round to its old value |
| Engine.CellInverse | src/html.c:536-541 | `t` and `m` with the same difference undo each other modulo 256, whatever the difference |
| Engine.WrapCancel | src/html.c:536-541 | adding then subtracting the same amount modulo 256 restores a cell |
| Engine.MoveRoundTrip | src/html.c:542-559 | a move right that passes the bounds check is undone by a move left of the same difference |
| Engine.MoveBounds | src/html.c:542-559 | below the limit INT_MAX minus the tape size, `L` moves exactly when the target index is below the tape size, and `H` exactly when it is not negative; a move never changes a cell |
| Engine.NegativeMoveFaults | src/html.c:542-559 | a negative difference is an overrun for `L` and an underrun for `H`, wherever the index stands |
| Engine.OutputRepeats | src/html.c:560-563 | `T` hands the current cell to the output handler exactly `difference` times, and the tape and index stay unchanged |
| Engine.ReadKeepsLast | src/html.c:564-578 | after `k` reads from an input of at least `k` values, the cell holds the last value read modulo 256, unless that value is EOF |
| Engine.ReadAtEndOfInput | src/html.c:564-578 | at the end of the input every read is EOF and leaves the cell unchanged |
| Engine.ByteFFReadsAsEof | src/html.c:567-572 | the byte 0xFF is consumed like EOF and leaves the cell unchanged |
| Engine.UnknownKindEndsWalk | src/html.c:605-606 | an instruction of none of the nine kinds ends the walk quietly with the state unchanged |
| Engine.StopAfterFirst | src/html.c:608-614 | with the stop flag set, a walk carries out its first instruction and nothing after it |
| Engine.EndStopsWalk | src/html.c:532 | a walk ends at the first `l`, so nothing after it affects the result |
| Engine.RunFuelMonotone | src/html.c:579-582 | more fuel changes nothing once a walk finishes without running out |
| Engine.LoopFuelMonotone | src/html.c:579-582 | more fuel changes nothing once a loop finishes without running out |
| Engine.ClearLoop | src/html.c:580-581 | the loop `hml` counts the current cell down to 0 and leaves everything else unchanged, whether or not the stop flag is set, since the `while` never tests it |
| Engine.SizeOfElement | include/html.h:64-68 | a loop body is strictly smaller than the list that holds it, so the recursion through loop bodies ends |
| Engine.Context.constructor | src/html.c:45-62 | the tape has `size` cells, or 30000 for a negative size, all zero; the index is 0, no stop is requested, and the output is empty; the context can run a program exactly when the size is not 0 |
| Engine.Context.Stop | src/html.c:624-627 | the stop flag is set, and nothing else changes |
| Engine.Context.OutputHandler | include/html.h:92 | the output handler receives exactly one value, and the tape, index, input and stop flag are unchanged |
| Engine.Context.InputHandler | include/html.h:99 | the input handler returns the next value, or EOF at the end of the input, consumes that value, and changes nothing else |
| Engine.Context.Emit | src/html.c:560-563 | the output grows by `count` copies of the current cell |
| Engine.Context.Receive | src/html.c:564-578 | only the current cell changes, and it and the input become what `count` reads give |
| Engine.Context.ExecuteInstruction | src/html.c:534-607 | the context becomes the state the instruction's effect gives; a failed bounds check leaves it unchanged with a fatal status, and an unknown kind ends the walk |
| Engine.Context.Execute | src/html.c:526-616 | the status and the new context are the outcome of the walk from the old context, with the stop flag as it is |
| Engine.Context.ExecuteLoop | src/html.c:579-582 | the status and the new context are the outcome of the loop from the old context |
| ListState.State.constructor | src/html.c:32-38 | a new state has no instructions and null root and head |
| ListState.State.Add | src/html.c:91-112 | a non-empty list is appended behind the head, the head becomes its last node and is returned, a non-null root is unchanged, and an empty state gets the list as its root; a null list changes nothing and gives null |
| ListState.State.InsertAfter | src/html.c:185-210 | the list is linked in between `after` and its former successor, the first inserted node is returned, the root is kept, and inserting behind the head makes the list's last node the head |
| ListState.State.Remove | src/html.c:71-82 | the node, which has both neighbours, is unlinked and returned, and every other node stays in order |
| ListState.RemoveUndoesInsert | src/html.c:71-82 | unlinking the one node just inserted behind `after` restores the chain |
| ListState.InsertAtHeadAppends | src/html.c:185-210 | inserting behind the head gives the same chain as adding |
| ListState.InsertKeepsNodes | src/html.c:185-210 | insertion keeps every node and adds exactly the inserted ones |
| ListState.RemoveKeepsOthers | src/html.c:71-82 | removal keeps every other node, in order, and drops exactly the removed one |
| Programs.AddedBehindParsedIsUnreachable | src/html.c:91-112 | a list added behind a parsed program is never executed from the program's root, because the walk ends at the program's sentinel |
| Programs.CopyByte | src/html.c:560-578 | `MT` parses to an input node and an output node, and it copies one input value to the output |
| Programs.NetLeftRunFaults | src/html.c:542-548 | `LHH` parses to an `L` node with difference −1, and running it always fails with an overrun and leaves the machine unchanged |
| Programs.ClearCell | src/html.c:579-582 | `hml` clears the current cell when there is fuel for one iteration per unit of the cell, with or without a stop request |

## Left out

- Stream parsing (`html_parse_stream`, `html_parse_stream_until`): the scanning is the string parser's, read through `fgetc`/`ungetc` from a file.
- `html_getchar`, `putchar` and any handler other than the model's: they are standard I/O. The input handler is modelled as the sequence of values it returns, with EOF once that sequence is exhausted. The output handler is modelled as the log of values it receives, and its return value is ignored, as in the code.
- The debug dump of the break token: it only prints part of the tape and the index on standard output, so in the model the break token does nothing.
- The `HTML_EXTENSION_DEBUG` build, in which the break token is `#`.
- `html_destroy_*` and every `malloc`/`calloc` failure: memory is not modelled.
- `html_insert_before` and `html_add_front`: they leave the list malformed (a node linked to itself, a head that is not the last node), so they have no sequence counterpart.
- Setting the stop flag from a signal handler or another thread while `html_execute` runs: the flag is a field that is set between calls (`Stop`).
- The text printed on standard error before `exit`, and the exit itself: they are the status `Fatal(Overrun)` or `Fatal(Underrun)`.
- Null pointer arguments: a null instruction list is the empty sequence for `Add` and `InsertAfter`. A null state, context, string or position, and the null instruction of `html_remove`, cannot be expressed in the model.
- Engine.Run: termination is bounded by a fuel parameter that loop iterations spend, so a program that loops forever ends with `OutOfFuel` instead of running on.
- Parser.ParseSubstring: a negative `begin` indexes before the string, which is undefined behaviour in C, so the model requires `begin` to be at least 0.
- Reads past the string's terminator, which an explicit `end` beyond it allows: the model reads the terminator again instead of whatever lies in memory.
- The `int` counters of the parser and the `difference` field: runs long enough to overflow them are not modelled.
- The difference of the sentinel that closes a list, which the C code leaves at whatever the reused node held: the model sets it to 1. The execution engine never reads it.
- A tape of 0 cells: `html_execute` then writes outside the allocation, so `Execute` requires a valid context, which such a tape is not.
- ListState: a pointer to an instruction is its position in the top-level chain, so aliasing, and instructions inside loop bodies as targets of `InsertAfter` and `Remove`, are not modelled.
- ListState.State.Remove: the head update of `html_remove` applies only when the removed node is the head, and then the C code dereferences a null successor. The model requires both neighbours and keeps the head on the last node.
