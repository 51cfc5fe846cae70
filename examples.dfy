/** Whole runs of small programs, and one that never ends. */
module Examples {
  import opened Fmt
  import opened Errors
  import opened Tape
  import opened Interpreter
  import opened InterpreterFacts

  /** A run of one iteration fewer from the state that iteration leads to. */
  lemma Unroll(prog: seq<char>, s: Machine, t: Machine, fuel: nat)
    requires s.pc < |prog| && Inv(prog, s) && Step(prog, s) == Ok(t)
    ensures Inv(prog, t)
    ensures RunFrom(prog, s, fuel + 1) == RunFrom(prog, t, fuel)
  {
    StepPreservesInv(prog, s);
  }

  /** The memory operations on a tape of exactly one cell, under the cursor. */
  lemma OneCell(v: int)
    ensures Filled(Mem([v], 0)) == Mem([v], 0) && Current(Mem([v], 0)) == v
    ensures AfterPlus(Mem([v], 0)) == Mem([v + 1], 0)
    ensures AfterMinus(Mem([v], 0)) == Mem([v - 1], 0)
  {
    assert [v][0 := v + 1] == [v + 1];
    assert [v][0 := v - 1] == [v - 1];
  }

  /** `n` copies of `c`, then a `.`. */
  function RepeatThenWrite(c: char, n: nat): (p: string)
    ensures |p| == n + 1 && p[n] == '.' && forall i :: 0 <= i < n ==> p[i] == c
  {
    seq(n, _ => c) + "."
  }

  /** The cell after `k` copies of `c`, `+` or `-`. */
  function Count(c: char, k: nat): int {
    if c == '+' then k else 0 - k
  }

  /** The state after the first `k` symbols of `RepeatThenWrite(c, n)`. */
  function AfterRepeat(c: char, k: nat): Machine {
    Machine(k, Mem(if k == 0 then [] else [Count(c, k)], 0), [], [], [])
  }

  lemma RepeatStep(c: char, n: nat, k: nat)
    requires c == '+' || c == '-'
    requires k < n
    ensures Inv(RepeatThenWrite(c, n), AfterRepeat(c, k))
    ensures Step(RepeatThenWrite(c, n), AfterRepeat(c, k)) == Ok(AfterRepeat(c, k + 1))
  {
    var p := RepeatThenWrite(c, n);
    var s := AfterRepeat(c, k);
    assert p[k] == c;
    if k == 0 {
      assert Zeros(1) == [0];
      assert Filled(Fresh) == Mem([0], 0);
      assert [0][0 := 1] == [1] && [0][0 := -1] == [-1];
    } else {
      OneCell(Count(c, k));
    }
    if c == '+' {
      assert Dispatch(p, s) == Ok(s.(mem := AfterPlus(s.mem)));
    } else {
      assert Dispatch(p, s) == Ok(s.(mem := AfterMinus(s.mem)));
    }
  }

  lemma RepeatWrite(c: char, n: nat)
    requires c == '+' || c == '-'
    ensures Inv(RepeatThenWrite(c, n), AfterRepeat(c, n))
    ensures Step(RepeatThenWrite(c, n), AfterRepeat(c, n))
         == Ok(Machine(n + 1, Mem([Count(c, n)], 0), [], [], [Count(c, n)]))
  {
    var p := RepeatThenWrite(c, n);
    var s := AfterRepeat(c, n);
    if n == 0 {
      assert Zeros(1) == [0];
      assert Filled(s.mem) == Mem([0], 0);
    } else {
      OneCell(Count(c, n));
    }
    assert Current(s.mem) == Count(c, n);
    assert s.output + [Count(c, n)] == [Count(c, n)];
    assert Dispatch(p, s) == Ok(s.(mem := Filled(s.mem), output := [Count(c, n)]));
  }

  lemma {:induction false} RepeatFrom(c: char, n: nat, k: nat, fuel: nat)
    requires c == '+' || c == '-'
    requires k <= n && fuel >= n - k + 1
    ensures Inv(RepeatThenWrite(c, n), AfterRepeat(c, k))
    ensures RunFrom(RepeatThenWrite(c, n), AfterRepeat(c, k), fuel)
         == Halted(Ok(()), Machine(n + 1, Mem([Count(c, n)], 0), [], [], [Count(c, n)]))
    decreases n - k
  {
    var p := RepeatThenWrite(c, n);
    if k == n {
      RepeatWrite(c, n);
      Unroll(p, AfterRepeat(c, n), Machine(n + 1, Mem([Count(c, n)], 0), [], [], [Count(c, n)]), fuel - 1);
    } else {
      RepeatStep(c, n, k);
      Unroll(p, AfterRepeat(c, k), AfterRepeat(c, k + 1), fuel - 1);
      RepeatFrom(c, n, k + 1, fuel - 1);
    }
  }

  /** `n` pluses then `.` write the number `n`: the cell counts past 255
      without wrapping, and one iteration per symbol suffices. */
  lemma PlusesWriteCount(n: nat)
    ensures Run(RepeatThenWrite('+', n), [], n + 1)
         == Halted(Ok(()), Machine(n + 1, Mem([n], 0), [], [], [n]))
    ensures Stdout([n]) == IntText(n)
  {
    RepeatFrom('+', n, 0, n + 1);
    StdoutSnoc([], n);
  }

  /** `n` minuses then `.` write `-n`: cells go below zero. */
  lemma MinusesWriteNegative(n: nat)
    ensures Run(RepeatThenWrite('-', n), [], n + 1)
         == Halted(Ok(()), Machine(n + 1, Mem([0 - n], 0), [], [], [0 - n]))
  {
    RepeatFrom('-', n, 0, n + 1);
  }

  /** 256 pluses then `.` show "256", not "0". */
  lemma NoWrapAt256()
    ensures Stdout(Run(RepeatThenWrite('+', 256), [], 257).final.output) == "256"
  {
    PlusesWriteCount(256);
    assert IntText(256) == NatText(25) + [DigitChar(6)];
    assert NatText(25) == NatText(2) + [DigitChar(5)];
  }

  /** `,` takes one byte and `.` writes it back as a number, not as a byte. */
  lemma EchoWritesDecimal(b: byte, fuel: nat)
    requires fuel >= 2
    ensures Run(",.", [b], fuel) == Halted(Ok(()), Machine(2, Mem([b as int], 0), [], [], [b as int]))
  {
    var p := ",.";
    var s0 := Initial([b]);
    var s1 := Machine(1, Mem([b as int], 0), [], [], []);
    var s2 := Machine(2, Mem([b as int], 0), [], [], [b as int]);
    assert p[0] == ',' && p[1] == '.';
    assert Zeros(1) == [0] && [0][0 := b as int] == [b as int];
    assert Filled(Fresh) == Mem([0], 0);
    assert AfterStore(Fresh, b) == Mem([b as int], 0);
    assert [b][1..] == [];
    assert Dispatch(p, s0) == Ok(s0.(mem := AfterStore(s0.mem, b), input := []));
    Unroll(p, s0, s1, fuel - 1);
    OneCell(b as int);
    assert s1.output + [b as int] == [b as int];
    assert Dispatch(p, s1) == Ok(s1.(mem := Filled(s1.mem), output := [b as int]));
    Unroll(p, s1, s2, fuel - 2);
  }

  /** A lone `]` is no error either: on the fresh zero cell it falls through. */
  lemma LoneCloserSucceeds()
    ensures Run("]", [], 5) == Halted(Ok(()), Machine(1, Mem([0], 0), [], [], []))
  {
  }

  /** A `]` on a nonzero cell with nothing to return to fails with the syntax
      error for its own index. */
  lemma UnmatchedCloserFails()
    ensures Run("+]", [], 5) == Halted(Err(AtByte(1)), Machine(1, Mem([1], 0), [], [], []))
    ensures Display(AtByte(1)) == "Found a ] with no correspoding [ at byte: 1"
  {
  }

  /** A lone `[` is no error: the run simply ends. */
  lemma LoneOpenerSucceeds()
    ensures Run("[", [], 5) == Halted(Ok(()), Machine(1, Mem([0], 0), [], [], []))
  {
  }

  /** With no scan to the matching `]`, a loop on a zero cell runs its body:
      `[+]` makes the cell 1 and then fails at the `]`, index 2. */
  lemma ZeroLoopIsNotSkipped()
    ensures Run("[+]", [], 5) == Halted(Err(AtByte(2)), Machine(2, Mem([1], 0), [], [], []))
  {
  }

  /** A `,` at the end of the input is an I/O error. */
  lemma ReadAtEndFails()
    ensures Run(",", [], 5) == Halted(Err(Io(ReadExactEof)), Initial([]))
  {
  }

  /** A loop counting a cell down to zero. */
  const Countdown: string := "+++[-]."

  /** The state each time the countdown reaches its `[`, with `v` in the cell. */
  function AtLoop(v: int): Machine { Machine(3, Mem([v], 0), [], [], []) }

  /** The countdown's final state: the last push of the `[` is never popped,
      since the `]` that sees the zero cell falls through. */
  function CountedDown(): Machine { Machine(7, Mem([0], 0), [3], [], [0]) }

  lemma PlusFromStart(k: nat)
    requires k < 3
    ensures Inv(Countdown, Machine(k, Mem(if k == 0 then [] else [k], 0), [], [], []))
    ensures Step(Countdown, Machine(k, Mem(if k == 0 then [] else [k], 0), [], [], []))
         == Ok(Machine(k + 1, Mem([k + 1], 0), [], [], []))
  {
    assert Countdown[k] == '+';
    if k == 0 {
      assert Zeros(1) == [0];
      assert AfterPlus(Fresh) == Mem([1], 0);
    } else {
      OneCell(k);
    }
  }

  lemma OpenTaken(v: int)
    requires v != 0
    ensures Inv(Countdown, AtLoop(v))
    ensures Step(Countdown, AtLoop(v)) == Ok(Machine(4, Mem([v], 0), [3], [], []))
  {
    var s := AtLoop(v);
    assert Countdown[3] == '[';
    OneCell(v);
    assert s.stack + [s.pc] == [3];
    assert Dispatch(Countdown, s) == Ok(s.(mem := Filled(s.mem), stack := s.stack + [s.pc]));
  }

  lemma MinusInLoop(v: int)
    ensures Inv(Countdown, Machine(4, Mem([v], 0), [3], [], []))
    ensures Step(Countdown, Machine(4, Mem([v], 0), [3], [], [])) == Ok(Machine(5, Mem([v - 1], 0), [3], [], []))
  {
    assert Countdown[3] == '[' && Countdown[4] == '-';
    OneCell(v);
  }

  lemma CloseTaken(v: int)
    requires v != 0
    ensures Inv(Countdown, Machine(5, Mem([v], 0), [3], [], []))
    ensures Step(Countdown, Machine(5, Mem([v], 0), [3], [], [])) == Ok(AtLoop(v))
  {
    var s := Machine(5, Mem([v], 0), [3], [], []);
    assert Countdown[3] == '[' && Countdown[5] == ']';
    OneCell(v);
    assert s.stack[..|s.stack| - 1] == [];
    assert Dispatch(Countdown, s) == Ok(s.(pc := 2, mem := Filled(s.mem), stack := []));
  }

  lemma CloseFalls()
    ensures Inv(Countdown, Machine(5, Mem([0], 0), [3], [], []))
    ensures Step(Countdown, Machine(5, Mem([0], 0), [3], [], [])) == Ok(Machine(6, Mem([0], 0), [3], [], []))
  {
    assert Countdown[3] == '[' && Countdown[5] == ']';
    OneCell(0);
  }

  lemma WriteZero()
    ensures Inv(Countdown, Machine(6, Mem([0], 0), [3], [], []))
    ensures Step(Countdown, Machine(6, Mem([0], 0), [3], [], [])) == Ok(CountedDown())
  {
    assert Countdown[3] == '[' && Countdown[6] == '.';
    var s := Machine(6, Mem([0], 0), [3], [], []);
    OneCell(0);
    assert s.output + [0] == [0];
    assert Dispatch(Countdown, s) == Ok(s.(mem := Filled(s.mem), output := [0]));
  }

  /** One more round of the loop body, for a count that stays nonzero. */
  lemma LoopAgain(v: int, fuel: nat)
    requires v != 0 && v != 1
    ensures Inv(Countdown, AtLoop(v))
    ensures RunFrom(Countdown, AtLoop(v), fuel + 3) == RunFrom(Countdown, AtLoop(v - 1), fuel)
  {
    OpenTaken(v);
    Unroll(Countdown, AtLoop(v), Machine(4, Mem([v], 0), [3], [], []), fuel + 2);
    MinusInLoop(v);
    Unroll(Countdown, Machine(4, Mem([v], 0), [3], [], []), Machine(5, Mem([v - 1], 0), [3], [], []), fuel + 1);
    CloseTaken(v - 1);
    Unroll(Countdown, Machine(5, Mem([v - 1], 0), [3], [], []), AtLoop(v - 1), fuel);
  }

  /** The last round of the loop body, then the `.`. */
  lemma LoopExit(fuel: nat)
    ensures Inv(Countdown, AtLoop(1))
    ensures RunFrom(Countdown, AtLoop(1), fuel + 4) == Halted(Ok(()), CountedDown())
  {
    OpenTaken(1);
    Unroll(Countdown, AtLoop(1), Machine(4, Mem([1], 0), [3], [], []), fuel + 3);
    MinusInLoop(1);
    Unroll(Countdown, Machine(4, Mem([1], 0), [3], [], []), Machine(5, Mem([0], 0), [3], [], []), fuel + 2);
    CloseFalls();
    Unroll(Countdown, Machine(5, Mem([0], 0), [3], [], []), Machine(6, Mem([0], 0), [3], [], []), fuel + 1);
    WriteZero();
    Unroll(Countdown, Machine(6, Mem([0], 0), [3], [], []), CountedDown(), fuel);
  }

  /** From the `[` with any positive count, three iterations per unit reach the end. */
  lemma {:induction false} CountdownFrom(v: nat, fuel: nat)
    requires v >= 1 && fuel >= 3 * v + 1
    ensures Inv(Countdown, AtLoop(v))
    ensures RunFrom(Countdown, AtLoop(v), fuel) == Halted(Ok(()), CountedDown())
    decreases v
  {
    if v == 1 {
      LoopExit(fuel - 4);
    } else {
      LoopAgain(v, fuel - 3);
      CountdownFrom(v - 1, fuel - 3);
    }
  }

  /** The whole countdown: `[` is re-executed and re-pushed on every round. */
  lemma CountdownWritesZero()
    ensures Run(Countdown, [], 20) == Halted(Ok(()), CountedDown())
  {
    PlusFromStart(0);
    Unroll(Countdown, Initial([]), Machine(1, Mem([1], 0), [], [], []), 19);
    PlusFromStart(1);
    Unroll(Countdown, Machine(1, Mem([1], 0), [], [], []), Machine(2, Mem([2], 0), [], [], []), 18);
    PlusFromStart(2);
    Unroll(Countdown, Machine(2, Mem([2], 0), [], [], []), AtLoop(3), 17);
    CountdownFrom(3, 17);
  }

  /** The states `+[]` goes through after its `+`: at the `[` or the `]`, on a
      nonzero cell, with at least one entry on the stack at the `]`. */
  predicate Spinning(s: Machine) {
    && Inv("+[]", s)
    && 1 <= s.pc <= 2
    && Cell(s.mem, 0) != 0
    && (s.pc == 2 ==> s.stack != [])
  }

  /** One iteration of `+[]` from a spinning state leads to a spinning state. */
  lemma SpinStep(s: Machine) returns (t: Machine)
    requires Spinning(s)
    ensures Step("+[]", s) == Ok(t) && Spinning(t)
  {
    var p := "+[]";
    assert p[1] == '[' && p[2] == ']';
    if s.pc == 1 { StepOpen(p, s); } else { StepClose(p, s); }
    StepPreservesInv(p, s);
    t := Step(p, s).value;
  }

  lemma {:induction false} SpinNeverStops(s: Machine, fuel: nat)
    requires Spinning(s)
    ensures RunFrom("+[]", s, fuel).OutOfFuel?
    decreases fuel
  {
    if fuel > 0 {
      var t := SpinStep(s);
      Unroll("+[]", s, t, fuel - 1);
      SpinNeverStops(t, fuel - 1);
    }
  }

  /** `+[]` never terminates: no amount of fuel suffices. */
  lemma SpinDiverges(fuel: nat)
    ensures Run("+[]", [], fuel).OutOfFuel?
  {
    var p := "+[]";
    if fuel > 0 {
      assert p[0] == '+';
      StepTapeCommand(p, Initial([]));
      var t := Step(p, Initial([])).value;
      Unroll(p, Initial([]), t, fuel - 1);
      SpinNeverStops(t, fuel - 1);
    }
  }
}
