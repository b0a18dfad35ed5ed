/** Concrete runs of small Brainfuck programs. */
module Scenarios {
  import opened Instructions
  import opened Tapes
  import opened Engine
  import opened Brainfuck

  /** `+++.` on an empty tape writes the byte 3 and finishes. */
  lemma CountToThree(alloc: nat -> bool)
    requires alloc(1 + GRANULARITY)
    ensures var r := Run(DecodeProgram([PLUS, PLUS, PLUS, DOT]), Initial([]), alloc, 4);
      r.Done? && r.outcome == Finished && r.final.output == [3]
  {
    var prog := DecodeProgram([PLUS, PLUS, PLUS, DOT]);
    assert prog == [ValInc, ValInc, ValInc, ValOutput];
    var t1 := Incremented([], 0, true).value;
    var t2 := Incremented(t1, 0, true).value;
    var t3 := Incremented(t2, 0, true).value;
    assert Read(t3, 0) == 3;
    var s := Initial([]);
    assert Run(prog, s, alloc, 4) == Run(prog, s.(ip := 1, tape := t1), alloc, 3);
    assert Run(prog, s.(ip := 1, tape := t1), alloc, 3) == Run(prog, s.(ip := 2, tape := t2), alloc, 2);
    assert Run(prog, s.(ip := 2, tape := t2), alloc, 2) == Run(prog, s.(ip := 3, tape := t3), alloc, 1);
  }

  /** `.,.` with no input writes one byte, then stops at the `,`. */
  lemma StopAtEndOfInput(alloc: nat -> bool, fuel: nat)
    requires fuel >= 2
    ensures var r := Run(DecodeProgram([DOT, COMMA, DOT]), Initial([]), alloc, fuel);
      r == Done(EndOfInput, State(3, 0, [], [], [0]))
  {
    var prog := DecodeProgram([DOT, COMMA, DOT]);
    assert prog == [ValOutput, ValAccept, ValOutput];
    assert Run(prog, Initial([]), alloc, fuel) == Run(prog, State(1, 0, [], [], [0]), alloc, fuel - 1);
  }

  /** A lone `[` on a zero cell finds no match: the run stops, distinguishably
      from a clean finish. */
  lemma StopAtUnmatchedOpen(alloc: nat -> bool, fuel: nat)
    requires fuel >= 1
    ensures Run(DecodeProgram([OPEN]), Initial([]), alloc, fuel) == Done(UnmatchedBracket, State(1, 0, [], [], []))
  {
    var prog := DecodeProgram([OPEN]);
    assert prog == [JmpForward];
    assert ScanForward(prog, 1, 1) == None;
  }

  /** `[+].` on a zero cell skips the loop body and resumes after the `]`. */
  lemma SkipZeroLoop(alloc: nat -> bool, fuel: nat)
    requires fuel >= 2
    ensures var r := Run(DecodeProgram([OPEN, PLUS, CLOSE, DOT]), Initial([]), alloc, fuel);
      r == Done(Finished, State(4, 0, [], [], [0]))
  {
    var prog := DecodeProgram([OPEN, PLUS, CLOSE, DOT]);
    assert prog == [JmpForward, ValInc, JmpBack, ValOutput];
    assert ScanForward(prog, 1, 1) == Some(2);
    assert Step(prog, Initial([]), alloc) == Next(State(3, 0, [], [], []));
    assert Step(prog, State(3, 0, [], [], []), alloc) == Next(State(4, 0, [], [], [0]));
    assert Run(prog, Initial([]), alloc, fuel) == Run(prog, State(3, 0, [], [], []), alloc, fuel - 1);
    assert Run(prog, State(3, 0, [], [], []), alloc, fuel - 1) == Run(prog, State(4, 0, [], [], [0]), alloc, fuel - 2);
  }

  /** `+++[-].`: three `+`, then a loop whose body decrements its test cell. */
  function Countdown(): (prog: seq<Instruction>)
    ensures prog == DecodeProgram([PLUS, PLUS, PLUS, OPEN, MINUS, CLOSE, DOT])
  {
    [ValInc, ValInc, ValInc, JmpForward, ValDec, JmpBack, ValOutput]
  }

  /** The `-` of Countdown's loop body. */
  lemma DrainDecrement(s: State, alloc: nat -> bool, fuel: nat)
    requires s.ip == 4 && s.dp == 0 && 0 < |s.tape| && fuel >= 1
    ensures Run(Countdown(), s, alloc, fuel) ==
            Run(Countdown(), s.(ip := 5, tape := s.tape[0 := s.tape[0] - 1]), alloc, fuel - 1)
  {
    assert Decremented(s.tape, 0, ReallocOk(alloc, 0)) == Some(s.tape[0 := s.tape[0] - 1]);
  }

  /** The `]` of Countdown's loop: back to the body unless the cell is 0. */
  lemma DrainTest(s: State, alloc: nat -> bool, fuel: nat)
    requires s.ip == 5 && s.dp == 0 && 0 < |s.tape| && fuel >= 1
    ensures Run(Countdown(), s, alloc, fuel) ==
            Run(Countdown(), s.(ip := if s.tape[0] == 0 then 6 else 4), alloc, fuel - 1)
  {
    if s.tape[0] != 0 {
      assert ScanBackward(Countdown(), 5, 1) == Some(3);
    }
  }

  /** One turn of Countdown's loop body: `-`, then `]` jumps back unless the
      cell has reached 0. */
  lemma DrainTurn(s: State, alloc: nat -> bool, fuel: nat)
    requires s.ip == 4 && s.dp == 0 && 0 < |s.tape| && fuel >= 2
    ensures Run(Countdown(), s, alloc, fuel) ==
      if s.tape[0] == 1 then Run(Countdown(), s.(ip := 6, tape := s.tape[0 := 0]), alloc, fuel - 2)
      else Run(Countdown(), s.(tape := s.tape[0 := s.tape[0] - 1]), alloc, fuel - 2)
  {
    DrainDecrement(s, alloc, fuel);
    DrainTest(s.(ip := 5, tape := s.tape[0 := s.tape[0] - 1]), alloc, fuel - 1);
  }

  /** The three `+` and the `[` of Countdown, on a tape that may grow. */
  lemma CountdownPrelude(alloc: nat -> bool, fuel: nat) returns (t: seq<byte>)
    requires alloc(1 + GRANULARITY) && fuel >= 4
    ensures 0 < |t| && t[0] == 3
    ensures Run(Countdown(), Initial([]), alloc, fuel) == Run(Countdown(), State(4, 0, t, [], []), alloc, fuel - 4)
  {
    var prog := Countdown();
    var t1 := Incremented([], 0, true).value;
    var t2 := Incremented(t1, 0, true).value;
    t := Incremented(t2, 0, true).value;
    assert Read(t1, 0) == 1 && Read(t2, 0) == 2 && Read(t, 0) == 3;
    var s := Initial([]);
    assert Run(prog, s, alloc, fuel) == Run(prog, s.(ip := 1, tape := t1), alloc, fuel - 1);
    assert Run(prog, s.(ip := 1, tape := t1), alloc, fuel - 1) == Run(prog, s.(ip := 2, tape := t2), alloc, fuel - 2);
    assert Run(prog, s.(ip := 2, tape := t2), alloc, fuel - 2) == Run(prog, s.(ip := 3, tape := t), alloc, fuel - 3);
  }

  /** With 3 in the cell, Countdown's loop body runs three times. */
  lemma CountdownLoop(s: State, alloc: nat -> bool, fuel: nat)
    requires s.ip == 4 && s.dp == 0 && 0 < |s.tape| && s.tape[0] == 3 && fuel >= 6
    ensures Run(Countdown(), s, alloc, fuel) == Run(Countdown(), s.(ip := 6, tape := s.tape[0 := 0]), alloc, fuel - 6)
  {
    var t := s.tape;
    DrainTurn(s, alloc, fuel);
    DrainTurn(s.(tape := t[0 := 2]), alloc, fuel - 2);
    assert t[0 := 2][0 := 1] == t[0 := 1];
    DrainTurn(s.(tape := t[0 := 1]), alloc, fuel - 4);
    assert t[0 := 1][0 := 0] == t[0 := 0];
  }

  /** Countdown finishes in 11 instructions: its loop body runs three times,
      and the byte written afterwards is 0. */
  lemma CountdownFinishes(alloc: nat -> bool)
    requires alloc(1 + GRANULARITY)
    ensures var r := Run(Countdown(), Initial([]), alloc, 11);
      r.Done? && r.outcome == Finished && r.final.output == [0]
  {
    var t := CountdownPrelude(alloc, 11);
    CountdownLoop(State(4, 0, t, [], []), alloc, 7);
    var last := State(6, 0, t[0 := 0], [], []);
    assert Step(Countdown(), last, alloc) == Next(last.(ip := 7, output := [0]));
  }

  /** Ten instructions are not enough: the loop body takes exactly six. */
  lemma CountdownNeedsEleven(alloc: nat -> bool)
    requires alloc(1 + GRANULARITY)
    ensures Run(Countdown(), Initial([]), alloc, 10).OutOfFuel?
  {
    var t := CountdownPrelude(alloc, 10);
    CountdownLoop(State(4, 0, t, [], []), alloc, 6);
  }

  /** Cells never written read as 0, even after the tape grew past them. */
  lemma GrownTapeReadsZero(k: nat)
    ensures var r := Bounded([], GRANULARITY + 5, true);
      r.Some? && GRANULARITY + 5 < |r.value| && Read(r.value, k) == 0
  {
  }
}
