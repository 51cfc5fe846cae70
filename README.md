# rustbrain in Dafny

A model of the rustbrain interpreter for the eight-symbol tape language
(`> < + - . , [ ]`). It covers the interpreter's memory, the fetch/dispatch loop of
`main`, and the `Error` type, and proves properties of each.

- `fmt.dfy` (module `Fmt`): the decimal text Rust's `{}` writes for an integer
  (`IntText`), and the parser for it (`IntValue`) that the round-trip lemmas use.
- `error.dfy` (module `Errors`): `Error` with its two variants. Also the `From`
  conversions, `at_byte` (`AtByte`), `Display` and the `Result` type that `main` returns.
- `tape.dfy` (module `Tape`): the `Memory` struct as a class with a `seq<int>` vector
  and a `nat` cursor. Value-level functions on `Mem` specify its methods.
  - `Cell(m, k)` is the tape as a program sees it: the value `k` places from the
    cursor, and zero wherever no cell has been created yet.
  - Every operation is characterised by what it does to that view.
- `interp.dfy`:
  - Module `Interpreter` holds the specification of one loop iteration (`Dispatch`,
    `Step`), runs of at most `fuel` iterations (`RunFrom`, `Run`), and the loop
    invariant `Inv`.
  - It also holds the loop itself as the method `Interpret` over a `Memory` object,
    proved equal to `Run`.
  - Module `InterpreterFacts` states what each symbol does, and what whole runs do.
- `examples.dfy` (module `Examples`): runs of particular programs, all proved:
  - a countdown loop;
  - `n` pluses, showing there is no wrap at 256;
  - the unmatched `]` error, and the missing skip of a zero loop;
  - a program, `+[]`, that never terminates for any fuel.

The model follows the code, which differs from the usual description of this language:
- The code's cells are `isize` values, not bytes: they do not wrap at 256 and can go
  negative. The model makes them unbounded integers.
- `<` on the first cell inserts a new zero cell in front of it.
- `.` writes the cell's decimal text, not a byte.
- A `[` on a zero cell changes nothing a program can observe: its `load` may create the
  current cell as a zero, and it does not scan forward to the matching `]`, so the loop
  body runs anyway.
- The offset in the unmatched-`]` message is an index into the program's characters
  (`bytes` is a `Vec<char>`), not a byte offset; the two differ once a multi-byte
  character comes before the `]`. The model indexes a `seq<char>` in the same way.
- A `]` on a zero cell falls through without popping, so an unmatched `]` is only an
  error when the current cell is nonzero. A lone `]` on the fresh tape succeeds.
- The index stack reflects the pushes of `[` that were never popped. The countdown
  `+++[-].` ends with `[3]` still on it.

A run stops in one of two ways:
- `main` returns: `Ok` once the index leaves the program, or the first error. The
  error comes with the state before the failing iteration.
- The fuel runs out. The source loop itself has no such bound.

`Machine.output` holds the values `.` has written, in order. Standard output receives
`Stdout(output)`: their decimal texts, with nothing in between.

The definitions that the rows below reason about, and the lines they model:
- `Interpreter.Dispatch` and `Interpreter.Step`: one iteration, the `match` and `ptr += 1` (src/main.rs:95-122).
- `Interpreter.RunFrom`, `Interpreter.Iterate` and `Interpreter.Run`: the `while` loop from a state, from the start (src/main.rs:90-125).
- `Interpreter.Stdout`: the text `write_fmt(format_args!("{}", byte))` produces (src/main.rs:117).
- `Errors.Display`: the `Display` impl (src/error.rs:31-38).
- `Tape.Cell`: the view of the tape; `Tape.AfterInc`, `Tape.AfterDec`, `Tape.AfterPlus`, `Tape.AfterMinus`, `Tape.AfterStore`: `inc`, `dec`, `plus`, `minus`, `store` (src/main.rs:28-52).
- `Examples.RepeatThenWrite`: not a model of the source, but a test input: the program of `n` copies of a symbol and then `.`, which `Examples.RepeatFrom`, `Examples.PlusesWriteCount` and `Examples.MinusesWriteNegative` run.

## Model

| member | source | states |
|---|---|---|
| Fmt.NatText | src/main.rs:117 | the text for a natural number is canonical decimal, and it is "0" exactly for 0 |
| Fmt.IntText | src/error.rs:24-27 | `{}` text of an integer is canonical signed decimal and starts with '-' exactly when the number is negative |
| Fmt.NatTextRoundTrip | src/main.rs:117 | reading back the digits of `n` gives `n` |
| Fmt.IntTextRoundTrip | src/error.rs:24-27 | reading back the text of any integer gives that integer |
| Fmt.IntTextInjective | src/main.rs:117 | two integers have the same text exactly when they are equal |
| Errors.FromIo | src/error.rs:10-14 | `From<io::Error>` always gives the `Io` variant carrying that error |
| Errors.FromString | src/error.rs:16-20 | `From<String>` always gives the `Syntax` variant carrying that string |
| Errors.AtByte | src/error.rs:22-29 | `at_byte` is always `Syntax`, and its message is the fixed prefix followed by canonical digits |
| Errors.DisplayFromString | src/error.rs:31-38 | `Display` shows a syntax error's message unchanged |
| Errors.DisplayFromIo | src/error.rs:31-38 | `Display` shows an I/O error as the I/O error shows itself, and such an error is never equal to any `From<String>` error |
| Errors.AtByteOffsetReadable | src/error.rs:22-29 | the shown message starts with "Found a ] with no correspoding [ at byte: ", and the rest parses back to the offset |
| Errors.AtByteInjective | src/error.rs:22-29 | errors for two offsets are equal exactly when the offsets are |
| Tape.Filled | src/main.rs:22-26 | after filling, the cursor is unchanged and addresses an existing cell |
| Tape.FilledKeepsCells | src/main.rs:22-26 | filling grows the vector to exactly `ptr + 1` when it was short, keeps the old cells, adds only zeros, and leaves the view unchanged |
| Tape.Current | src/main.rs:54-57 | `load` gives the view's current cell, 0 for a cell never created |
| Tape.IncShiftsView | src/main.rs:28-30 | `inc` keeps the vector, and every cell is seen one place further left |
| Tape.DecShiftsView | src/main.rs:32-37 | `dec` shifts the view one place right, both when the cursor moves and when a front cell is inserted |
| Tape.WithCurrentView | src/main.rs:39-52 | overwriting the current cell changes that cell of the view only |
| Tape.PlusView | src/main.rs:39-42 | `plus` adds exactly one to the current cell, with no wrap, and changes no other cell or the cursor |
| Tape.MinusView | src/main.rs:44-47 | `minus` subtracts exactly one, possibly going negative, and changes nothing else |
| Tape.StoreView | src/main.rs:49-52 | `store(b)` leaves `b`, in 0..255, in the current cell and changes nothing else |
| Tape.PlusThenMinus | src/main.rs:39-47 | `minus` after `plus` gives the filled original memory |
| Tape.DecThenInc | src/main.rs:28-37 | left then right keeps the view; at the first cell it leaves a new zero in front and the cursor at 1 |
| Tape.LoadIsIdempotent | src/main.rs:54-57 | filling twice is filling once, and a cell read again reads the same |
| Tape.Memory.constructor | src/main.rs:15-19 | `Memory::default()` has no cells and the cursor at 0 |
| Tape.Memory.FillToPtr | src/main.rs:22-26 | the push loop ends with `ptr < len`, the old cells kept and only zeros added; the new state is `Filled` of the old |
| Tape.Memory.Inc | src/main.rs:28-30 | the cursor grows by one and the vector is untouched (no allocation) |
| Tape.Memory.Dec | src/main.rs:32-37 | with `ptr > 0` the cursor decrements; at 0 the vector becomes `[0] + old` and the cursor stays 0 |
| Tape.Memory.Plus | src/main.rs:39-42 | `vec[ptr]` becomes the old current value plus one, and every other cell and the cursor are as after filling |
| Tape.Memory.Minus | src/main.rs:44-47 | `vec[ptr]` becomes the old current value minus one, and everything else is as after filling |
| Tape.Memory.Store | src/main.rs:49-52 | `vec[ptr]` becomes the byte, and everything else is as after filling |
| Tape.Memory.Load | src/main.rs:54-57 | returns `vec[ptr]` after filling, which is the old view's current cell |
| Interpreter.StdoutAppend | src/main.rs:115-118 | the text of the values written is the concatenation of the texts of any split of them |
| Interpreter.StdoutSnoc | src/main.rs:115-118 | one more value written appends exactly its decimal text |
| Interpreter.StdoutHasNoSeparator | src/main.rs:117 | values are written without separators: 1 then 2 shows as 12 does |
| Interpreter.StepPreservesInv | src/main.rs:94-123 | every iteration keeps the stack entries at positions of `[` in 1..len, so `pop - 1` never underflows, and never ends at index 0 |
| Interpreter.RunFromStops | src/main.rs:94 | the loop ends with `Ok` once the index is past the program; with no fuel left inside it, the run is out of fuel |
| Interpreter.RunFromIteration | src/main.rs:94-123 | a run is one iteration followed by the rest of the run; a failed iteration ends it with that error |
| Interpreter.Execute | src/main.rs:95-120 | the `match` on the current symbol, with the memory updated in place, computes exactly what `Dispatch` specifies, including both errors |
| Interpreter.Interpret | src/main.rs:90-125 | the `while` loop, with at most `fuel` iterations, returns exactly `Run` of the program and input |
| InterpreterFacts.StepTapeCommand | src/main.rs:96-99 | `>`/`<` only shift the view; `+`/`-` change only the current cell, by exactly one; the stack, input and output are untouched and the index advances by one |
| InterpreterFacts.StepOpen | src/main.rs:100-104 | `[` pushes its index exactly when the cell is nonzero; the tape is unchanged and the next index is `ptr + 1` in either case (no skip-scan) |
| InterpreterFacts.StepClose | src/main.rs:105-109 | on a zero cell `]` only advances; on a nonzero cell it fails with `AtByte(ptr)` if the stack is empty, and otherwise the next index is the popped `[` |
| InterpreterFacts.StepRead | src/main.rs:110-114 | `,` fails with the end-of-input I/O error when no input is left; otherwise it consumes exactly one byte and stores it |
| InterpreterFacts.StepWrite | src/main.rs:115-118 | `.` appends the current cell to the output; standard output grows by exactly its decimal text |
| InterpreterFacts.StepOther | src/main.rs:119-122 | any other character only advances the index |
| InterpreterFacts.RunFromEnds | src/main.rs:94-125 | a run returns `Ok` exactly when the index left the program; an `Err` is what the final state's iteration yields; the invariant holds at the end |
| InterpreterFacts.StepOutputInput | src/main.rs:110-118 | one iteration only appends to the output and takes at most the first input byte |
| InterpreterFacts.RunFromOutputGrows | src/main.rs:94-123 | over a run the output only grows and the input is consumed from the front |
| InterpreterFacts.RunFromStdoutGrows | src/main.rs:115-118 | text on standard output is only ever appended to |
| InterpreterFacts.NoCommandsFrom | src/main.rs:119-123 | over command-free text the loop only advances the index to the end |
| InterpreterFacts.NoCommandsRun | src/main.rs:94-125 | a program without command characters ends `Ok` with no output, the fresh tape and the input untouched |
| Examples.RepeatFrom | src/main.rs:98-118 | from the `k`-th symbol of such a program the run ends writing the count |
| Examples.PlusesWriteCount | src/main.rs:98 | `n` pluses then `.` end `Ok` with the cell `n` written, in `n + 1` iterations |
| Examples.MinusesWriteNegative | src/main.rs:99 | `n` minuses then `.` write `-n` |
| Examples.NoWrapAt256 | src/main.rs:41 | 256 pluses then `.` show "256" |
| Examples.EchoWritesDecimal | src/main.rs:110-118 | `,.` on input byte `b` stores `b` and writes it as a number |
| Examples.LoneCloserSucceeds | src/main.rs:105-109 | `]` on the fresh zero cell is no error |
| Examples.UnmatchedCloserFails | src/main.rs:107 | `+]` fails with `at_byte(1)`, shown as the message ending in "at byte: 1" |
| Examples.LoneOpenerSucceeds | src/main.rs:100-104 | an unclosed `[` is no error |
| Examples.ZeroLoopIsNotSkipped | src/main.rs:100-109 | `[+]` runs its body on a zero cell and fails at the `]`, index 2 |
| Examples.ReadAtEndFails | src/main.rs:110-114 | `,` with no input fails with the end-of-input error in the initial state |
| Examples.LoopAgain | src/main.rs:100-109 | one round of the countdown loop on a count above 1 takes three iterations and lowers the count |
| Examples.LoopExit | src/main.rs:100-118 | the last round falls through the `]` without popping and writes 0 |
| Examples.CountdownFrom | src/main.rs:94-123 | from the `[` with any positive count the countdown ends with cell 0, written 0 and `[3]` left on the stack |
| Examples.CountdownWritesZero | src/main.rs:90-125 | `+++[-].` ends `Ok`, having written 0, with the final push of the `[` never popped |
| Examples.SpinNeverStops | src/main.rs:100-109 | from any state of `+[]` at its `[` or `]` on a nonzero cell, with a pushed `[` on the stack when at the `]`, no fuel suffices |
| Examples.SpinDiverges | src/main.rs:94-123 | `+[]` never terminates |

## Left out

- `read_script` (src/main.rs:8-13) and the program's command-line argument. The program is given as a `seq<char>`, already decoded from UTF-8 into characters.
- Real standard input and output, `BufReader`/`BufWriter` and flushing (src/main.rs:85-88). They are an input sequence of bytes and a sequence of the values written.
- Write failures of `.` (the `?` after `write_fmt`): writing to the output always succeeds here.
- I/O errors other than a `,` at the end of input. Their text is only the `text` field of `IoError`.
- The end-of-input text is std's `read_exact` message, "failed to fill whole buffer".
- `Memory::debug` and the `debug_assert!` hook (src/main.rs:59-81, 121). They print to standard error, sleep, and change no state.
- Tape.PlusView: does not model what `plus` and `minus` do at the `isize` limits, a panic (debug build) or a wrap (release build), because cells are unbounded integers.
- Interpreter.Interpret: does not model runs that never end, because it is bounded by `fuel` iterations. `OutOfFuel` stands for "still running"; `SpinDiverges` shows a program for which every bound is reached.
- A failing iteration is reported with the state before it. The cell that `load` may create before a `]` error is not observable after `main` returns.
- What the process reports on failure: `main` returns `Result<(), Error>` (src/main.rs:84), so an `Err` makes the process print `Error: ` followed by the `Debug` form of the error (the `#[derive(Debug)]` at src/error.rs:4) to standard error and exit with status 1. That text and the exit status are not modelled; `Display` (src/error.rs:31-38) is modelled as written, although this program never calls it.
