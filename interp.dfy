/** The interpreter loop of `main`: a fetch/dispatch loop over the program's
    characters with a stack of the positions of the `[` whose loops are being
    entered. A `[` on a nonzero cell pushes its own position and a `]` on a
    nonzero cell jumps back to the popped position; a `[` on a zero cell does
    nothing at all, so the loop body is not skipped.

    `Step` and `RunFrom` are the specification; `Interpret` is the loop itself
    over a `Memory` object and is proved to compute `Run`. */
module Interpreter {
  import opened Fmt
  import opened Errors
  import opened Tape

  /** Everything the loop updates: the program index, the memory, the stack of
      open `[` positions, the input not yet read and the cell values written so
      far by `.` (standard output receives their decimal texts, see `Stdout`). */
  datatype Machine = Machine(pc: nat, mem: Mem, stack: seq<nat>, input: seq<byte>, output: seq<int>)

  /** How a run ends: `main` returned (after the last character, or at the first
      error, with the state before the failing step), or the fuel ran out. */
  datatype Outcome = Halted(result: Result<()>, final: Machine) | OutOfFuel(final: Machine)

  /** The error `read_exact` reports when the input ends before a byte arrives. */
  const ReadExactEof: IoError := IoError(UnexpectedEof, "failed to fill whole buffer")

  function Initial(input: seq<byte>): Machine {
    Machine(0, Fresh, [], input, [])
  }

  /** The text standard output receives for the values written: each value's
      decimal text, one after another, with nothing in between. */
  function Stdout(output: seq<int>): string
    decreases |output|
  {
    if output == [] then "" else IntText(output[0]) + Stdout(output[1..])
  }

  /** Writing more values appends their text: what was shown stays shown. */
  lemma {:induction false} StdoutAppend(a: seq<int>, b: seq<int>)
    ensures Stdout(a + b) == Stdout(a) + Stdout(b)
    decreases |a|
  {
    if a == [] {
      assert a + b == b;
    } else {
      assert (a + b)[0] == a[0] && (a + b)[1..] == a[1..] + b;
      StdoutAppend(a[1..], b);
    }
  }

  /** One more value written appends exactly its decimal text. */
  lemma StdoutSnoc(output: seq<int>, x: int)
    ensures Stdout(output + [x]) == Stdout(output) + IntText(x)
  {
    StdoutAppend(output, [x]);
    assert [x][1..] == [];
    assert Stdout([x]) == IntText(x);
  }

  /** Values cannot be told apart in the text: 1 then 2 shows as 12 does. */
  lemma StdoutHasNoSeparator()
    ensures Stdout([1, 2]) == Stdout([12]) == "12"
  {
    assert [1, 2][1..] == [2] && [2][1..] == [] && [12][1..] == [];
    assert IntText(1) == "1" && IntText(2) == "2";
    assert IntText(12) == NatText(1) + [DigitChar(2)];
  }

  predicate IsCommand(c: char) {
    c in "><+-.,[]"
  }

  /** What holds before every step: the index is in range, every stack entry is
      the position of a `[` other than the first character, and index 0 is only
      ever executed on a current cell of 0. */
  predicate Inv(prog: seq<char>, s: Machine) {
    && s.pc <= |prog|
    && (forall i :: 0 <= i < |s.stack| ==> 1 <= s.stack[i] < |prog| && prog[s.stack[i]] == '[')
    && (s.pc == 0 ==> Cell(s.mem, 0) == 0)
  }

  /** The `match` on the current character; for a taken `]` the index becomes
      the popped position minus one. */
  function Dispatch(prog: seq<char>, s: Machine): Result<Machine>
    requires s.pc < |prog| && Inv(prog, s)
  {
    match prog[s.pc]
    case '>' => Ok(s.(mem := AfterInc(s.mem)))
    case '<' => Ok(s.(mem := AfterDec(s.mem)))
    case '+' => Ok(s.(mem := AfterPlus(s.mem)))
    case '-' => Ok(s.(mem := AfterMinus(s.mem)))
    case '[' =>
      if Current(s.mem) != 0 then Ok(s.(mem := Filled(s.mem), stack := s.stack + [s.pc]))
      else Ok(s.(mem := Filled(s.mem)))
    case ']' =>
      if Current(s.mem) == 0 then Ok(s.(mem := Filled(s.mem)))
      else if s.stack == [] then Err(AtByte(s.pc))
      else Ok(s.(pc := s.stack[|s.stack| - 1] - 1, mem := Filled(s.mem), stack := s.stack[..|s.stack| - 1]))
    case ',' =>
      if s.input == [] then Err(FromIo(ReadExactEof))
      else Ok(s.(mem := AfterStore(s.mem, s.input[0]), input := s.input[1..]))
    case '.' => Ok(s.(mem := Filled(s.mem), output := s.output + [Current(s.mem)]))
    case _ => Ok(s)
  }

  /** One iteration of the loop: the dispatch, then `ptr += 1`. */
  function Step(prog: seq<char>, s: Machine): Result<Machine>
    requires s.pc < |prog| && Inv(prog, s)
  {
    match Dispatch(prog, s)
    case Err(e) => Err(e)
    case Ok(t) => Ok(t.(pc := t.pc + 1))
  }

  /** The loop invariant: every iteration keeps `Inv`, so `pop - 1` never goes
      below zero, and no iteration ends at index 0, so the first character is
      executed exactly once, on the fresh all-zero tape. */
  lemma StepPreservesInv(prog: seq<char>, s: Machine)
    requires s.pc < |prog| && Inv(prog, s)
    ensures Step(prog, s).Ok? ==> Inv(prog, Step(prog, s).value) && Step(prog, s).value.pc >= 1
  {
  }

  /** At most `fuel` iterations of the loop from `s`: the loop stops when the
      index leaves the program. */
  function RunFrom(prog: seq<char>, s: Machine, fuel: nat): Outcome
    requires Inv(prog, s)
    decreases fuel, 1
  {
    if s.pc >= |prog| then Halted(Ok(()), s)
    else if fuel == 0 then OutOfFuel(s)
    else Iterate(prog, s, fuel)
  }

  /** One iteration, which ends the run if it fails, then the rest of the run. */
  function Iterate(prog: seq<char>, s: Machine, fuel: nat): Outcome
    requires s.pc < |prog| && Inv(prog, s) && fuel > 0
    decreases fuel, 0
  {
    match Step(prog, s)
    case Err(e) => Halted(Err(e), s)
    case Ok(t) => StepPreservesInv(prog, s); RunFrom(prog, t, fuel - 1)
  }

  /** At most `fuel` iterations of `main`'s loop on `prog` with the given input. */
  function Run(prog: seq<char>, input: seq<byte>, fuel: nat): Outcome {
    RunFrom(prog, Initial(input), fuel)
  }

  /** `RunFrom` where the loop stops before executing anything. */
  lemma RunFromStops(prog: seq<char>, s: Machine, fuel: nat)
    requires Inv(prog, s)
    ensures s.pc >= |prog| ==> RunFrom(prog, s, fuel) == Halted(Ok(()), s)
    ensures s.pc < |prog| && fuel == 0 ==> RunFrom(prog, s, fuel) == OutOfFuel(s)
  {
  }

  /** `RunFrom` unfolded by one iteration whose dispatch gave `Err(status.error)`
      or `Ok(t)`. */
  lemma RunFromIteration(prog: seq<char>, s: Machine, status: Result<()>, t: Machine, fuel: nat)
    requires s.pc < |prog| && Inv(prog, s) && fuel > 0
    requires Dispatch(prog, s) == if status.Err? then Err(status.error) else Ok(t)
    ensures status.Err? ==> RunFrom(prog, s, fuel) == Halted(status, s)
    ensures status.Ok? ==> Inv(prog, t.(pc := t.pc + 1))
    ensures status.Ok? ==> RunFrom(prog, s, fuel) == RunFrom(prog, t.(pc := t.pc + 1), fuel - 1)
  {
    StepPreservesInv(prog, s);
  }

  /** The `match` of one iteration, on the loop's variables: what `Dispatch`
      computes, with the memory updated in place; `Err` where `?` returns. */
  method Execute(program: seq<char>, memory: Memory, ptr: nat, loopCounter: seq<nat>, rest: seq<byte>, out: seq<int>)
    returns (status: Result<()>, ptr': nat, loopCounter': seq<nat>, rest': seq<byte>, out': seq<int>)
    requires ptr < |program| && Inv(program, Machine(ptr, memory.Model(), loopCounter, rest, out))
    modifies memory
    ensures Dispatch(program, Machine(ptr, old(memory.Model()), loopCounter, rest, out))
         == if status.Err? then Err(status.error) else Ok(Machine(ptr', memory.Model(), loopCounter', rest', out'))
  {
    status, ptr', loopCounter', rest', out' := Ok(()), ptr, loopCounter, rest, out;
    match program[ptr] {
      case '>' => memory.Inc();
      case '<' => memory.Dec();
      case '+' => memory.Plus();
      case '-' => memory.Minus();
      case '[' =>
        var v := memory.Load();
        if v != 0 {
          loopCounter' := loopCounter + [ptr];
        }
      case ']' =>
        var v := memory.Load();
        if v != 0 {
          if loopCounter == [] {
            return Err(AtByte(ptr)), ptr', loopCounter', rest', out';
          }
          var top := loopCounter[|loopCounter| - 1];
          loopCounter' := loopCounter[..|loopCounter| - 1];
          ptr' := top - 1;
        }
      case ',' =>
        if rest == [] {
          return Err(FromIo(ReadExactEof)), ptr', loopCounter', rest', out';
        }
        memory.Store(rest[0]);
        rest' := rest[1..];
      case '.' =>
        var v := memory.Load();
        out' := out + [v];
      case _ =>
    }
  }

  /** The loop of `main`, run for at most `fuel` iterations. */
  method Interpret(program: seq<char>, input: seq<byte>, fuel: nat) returns (outcome: Outcome)
    ensures outcome == Run(program, input, fuel)
  {
    var memory := new Memory();
    var loopCounter: seq<nat> := [];
    var rest := input;
    var out: seq<int> := [];
    var ptr: nat := 0;
    var steps := fuel;
    ghost var goal := Run(program, input, fuel);
    ghost var st := Initial(input);
    while ptr < |program|
      invariant st == Machine(ptr, memory.Model(), loopCounter, rest, out)
      invariant Inv(program, st)
      invariant RunFrom(program, st, steps) == goal
      decreases steps
    {
      if steps == 0 {
        RunFromStops(program, st, steps);
        return OutOfFuel(Machine(ptr, memory.Model(), loopCounter, rest, out));
      }
      var before := Machine(ptr, memory.Model(), loopCounter, rest, out);
      var status;
      status, ptr, loopCounter, rest, out := Execute(program, memory, ptr, loopCounter, rest, out);
      ghost var t := Machine(ptr, memory.Model(), loopCounter, rest, out);
      RunFromIteration(program, st, status, t, steps);
      if status.Err? {
        return Halted(status, before);
      }
      ptr := ptr + 1;
      steps := steps - 1;
      st := t.(pc := t.pc + 1);
    }
    RunFromStops(program, st, steps);
    return Halted(Ok(()), Machine(ptr, memory.Model(), loopCounter, rest, out));
  }
}

/** What one iteration does, symbol by symbol, and what whole runs do. */
module InterpreterFacts {
  import opened Fmt
  import opened Errors
  import opened Tape
  import opened Interpreter

  /** `>` and `<` only move the view of the tape; `+` and `-` change only the
      current cell, by exactly one, without wrapping. */
  lemma StepTapeCommand(prog: seq<char>, s: Machine)
    requires s.pc < |prog| && Inv(prog, s) && prog[s.pc] in "><+-"
    ensures var r := Step(prog, s);
      && r.Ok? && r.value.pc == s.pc + 1
      && r.value.stack == s.stack && r.value.input == s.input && r.value.output == s.output
      && (prog[s.pc] == '>' ==> forall k :: Cell(r.value.mem, k) == Cell(s.mem, k + 1))
      && (prog[s.pc] == '<' ==> forall k :: Cell(r.value.mem, k) == Cell(s.mem, k - 1))
      && (prog[s.pc] == '+' ==> Cell(r.value.mem, 0) == Cell(s.mem, 0) + 1)
      && (prog[s.pc] == '-' ==> Cell(r.value.mem, 0) == Cell(s.mem, 0) - 1)
      && (prog[s.pc] in "+-" ==> forall k :: k != 0 ==> Cell(r.value.mem, k) == Cell(s.mem, k))
  {
    match prog[s.pc]
    case '>' => IncShiftsView(s.mem);
    case '<' => DecShiftsView(s.mem);
    case '+' => PlusView(s.mem);
    case '-' => MinusView(s.mem);
  }

  /** `[` pushes its own index exactly when the current cell is nonzero, and in
      either case execution goes on at the next character: there is no scan
      for the matching `]`. */
  lemma StepOpen(prog: seq<char>, s: Machine)
    requires s.pc < |prog| && Inv(prog, s) && prog[s.pc] == '['
    ensures var r := Step(prog, s);
      && r.Ok? && r.value.pc == s.pc + 1
      && r.value.stack == (if Cell(s.mem, 0) != 0 then s.stack + [s.pc] else s.stack)
      && (forall k :: Cell(r.value.mem, k) == Cell(s.mem, k))
      && r.value.input == s.input && r.value.output == s.output
  {
    FilledKeepsCells(s.mem);
  }

  /** `]` on a zero cell falls through; on a nonzero cell it fails with the
      syntax error for its own index when the stack is empty, and otherwise
      pops the stack and the next index executed is the popped `[`. */
  lemma StepClose(prog: seq<char>, s: Machine)
    requires s.pc < |prog| && Inv(prog, s) && prog[s.pc] == ']'
    ensures var r := Step(prog, s);
      && (Cell(s.mem, 0) == 0 ==>
            r.Ok? && r.value.pc == s.pc + 1 && r.value.stack == s.stack)
      && (Cell(s.mem, 0) != 0 && s.stack == [] ==> r == Err(AtByte(s.pc)))
      && (Cell(s.mem, 0) != 0 && s.stack != [] ==>
            && r.Ok? && r.value.pc == s.stack[|s.stack| - 1] && prog[r.value.pc] == '['
            && r.value.stack == s.stack[..|s.stack| - 1])
      && (r.Ok? ==> && (forall k :: Cell(r.value.mem, k) == Cell(s.mem, k))
                    && r.value.input == s.input && r.value.output == s.output)
  {
    FilledKeepsCells(s.mem);
  }

  /** `,` fails with an I/O error at the end of the input; otherwise it takes
      exactly one byte and stores it in the current cell. */
  lemma StepRead(prog: seq<char>, s: Machine)
    requires s.pc < |prog| && Inv(prog, s) && prog[s.pc] == ','
    ensures var r := Step(prog, s);
      && (s.input == [] ==> r == Err(Io(ReadExactEof)))
      && (s.input != [] ==>
            && r.Ok? && r.value.pc == s.pc + 1
            && r.value.input == s.input[1..]
            && Cell(r.value.mem, 0) == s.input[0] as int
            && (forall k :: k != 0 ==> Cell(r.value.mem, k) == Cell(s.mem, k))
            && r.value.stack == s.stack && r.value.output == s.output)
  {
    if s.input != [] {
      StoreView(s.mem, s.input[0]);
    }
  }

  /** `.` writes the current cell: its decimal text is appended to standard output. */
  lemma StepWrite(prog: seq<char>, s: Machine)
    requires s.pc < |prog| && Inv(prog, s) && prog[s.pc] == '.'
    ensures var r := Step(prog, s);
      && r.Ok? && r.value.pc == s.pc + 1
      && r.value.output == s.output + [Cell(s.mem, 0)]
      && Stdout(r.value.output) == Stdout(s.output) + IntText(Cell(s.mem, 0))
      && (forall k :: Cell(r.value.mem, k) == Cell(s.mem, k))
      && r.value.stack == s.stack && r.value.input == s.input
  {
    FilledKeepsCells(s.mem);
    StdoutSnoc(s.output, Cell(s.mem, 0));
  }

  /** Every other character only advances the index. */
  lemma StepOther(prog: seq<char>, s: Machine)
    requires s.pc < |prog| && Inv(prog, s) && !IsCommand(prog[s.pc])
    ensures Step(prog, s) == Ok(s.(pc := s.pc + 1))
  {
  }

  /** How a run ends: it returns `Ok` exactly when the index has left the
      program; an error is the error of the iteration at the final state; the
      invariant holds throughout. */
  lemma {:induction false} RunFromEnds(prog: seq<char>, s: Machine, fuel: nat)
    requires Inv(prog, s)
    ensures var r := RunFrom(prog, s, fuel);
      && Inv(prog, r.final)
      && (r.Halted? && r.result.Ok? <==> r.final.pc >= |prog|)
      && (r.Halted? && r.result.Err? ==> r.final.pc < |prog| && Step(prog, r.final) == Err(r.result.error))
    decreases fuel
  {
    if s.pc < |prog| && fuel > 0 {
      StepPreservesInv(prog, s);
      match Step(prog, s)
      case Err(e) =>
      case Ok(t) => RunFromEnds(prog, t, fuel - 1);
    }
  }

  /** One iteration appends to the output and takes at most the first byte of the input. */
  lemma StepOutputInput(prog: seq<char>, s: Machine)
    requires s.pc < |prog| && Inv(prog, s) && Step(prog, s).Ok?
    ensures s.output <= Step(prog, s).value.output
    ensures Step(prog, s).value.input == s.input
         || (s.input != [] && Step(prog, s).value.input == s.input[1..])
  {
    if prog[s.pc] == ',' { StepRead(prog, s); }
    else if prog[s.pc] == '.' { StepWrite(prog, s); }
  }

  /** Output is only ever appended to, and input is consumed from the front
      in order. */
  lemma {:induction false} RunFromOutputGrows(prog: seq<char>, s: Machine, fuel: nat)
    requires Inv(prog, s)
    ensures var r := RunFrom(prog, s, fuel);
      && s.output <= r.final.output
      && |r.final.input| <= |s.input|
      && r.final.input == s.input[|s.input| - |r.final.input|..]
    decreases fuel
  {
    if s.pc < |prog| && fuel > 0 {
      StepPreservesInv(prog, s);
      var st := Step(prog, s);
      if st.Ok? {
        var t := st.value;
        assert RunFrom(prog, s, fuel) == RunFrom(prog, t, fuel - 1);
        RunFromOutputGrows(prog, t, fuel - 1);
        StepOutputInput(prog, s);
        var f := RunFrom(prog, t, fuel - 1).final;
        if t.input != s.input {
          assert t.input[|t.input| - |f.input|..] == s.input[|s.input| - |f.input|..];
        }
      }
    }
  }

  /** Text written to standard output before a failure stays written. */
  lemma RunFromStdoutGrows(prog: seq<char>, s: Machine, fuel: nat)
    requires Inv(prog, s)
    ensures Stdout(s.output) <= Stdout(RunFrom(prog, s, fuel).final.output)
  {
    RunFromOutputGrows(prog, s, fuel);
    var out := RunFrom(prog, s, fuel).final.output;
    assert out == s.output + out[|s.output|..];
    StdoutAppend(s.output, out[|s.output|..]);
  }

  predicate NoCommands(prog: seq<char>) {
    forall i :: 0 <= i < |prog| ==> !IsCommand(prog[i])
  }

  lemma {:induction false} NoCommandsFrom(prog: seq<char>, s: Machine, fuel: nat)
    requires Inv(prog, s) && NoCommands(prog) && s.pc + fuel >= |prog|
    ensures RunFrom(prog, s, fuel) == Halted(Ok(()), s.(pc := if s.pc < |prog| then |prog| else s.pc))
    decreases fuel
  {
    if s.pc < |prog| {
      StepOther(prog, s);
      NoCommandsFrom(prog, s.(pc := s.pc + 1), fuel - 1);
    }
  }

  /** A program without command characters finishes `Ok` with no output, the
      tape and the input untouched. */
  lemma NoCommandsRun(prog: seq<char>, input: seq<byte>, fuel: nat)
    requires NoCommands(prog) && fuel >= |prog|
    ensures Run(prog, input, fuel) == Halted(Ok(()), Machine(|prog|, Fresh, [], input, []))
  {
    NoCommandsFrom(prog, Initial(input), fuel);
  }
}
