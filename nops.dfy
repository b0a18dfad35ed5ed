/** NOP units take a turn of the loop of main and do nothing else: they change
    neither the machine nor the nesting the bracket scans count. Running a
    program and running it with its NOPs removed therefore end alike. */
module NopErasure {
  import opened Instructions
  import opened Tapes
  import opened Engine

  /** q is prog with its NOPs erased, as far as the positions of its
      instructions tell: instruction i of prog is instruction Pos(prog, i) of q. */
  ghost predicate Erases(prog: seq<Instruction>, q: seq<Instruction>)
  {
    Pos(prog, |prog|) == |q| &&
    (forall i :: 0 <= i <= |prog| ==> Pos(prog, i) <= |q|) &&
    (forall i {:trigger Pos(prog, i), prog[i]} :: 0 <= i < |prog| && prog[i] != Nop ==> Pos(prog, i) < |q| && q[Pos(prog, i)] == prog[i])
  }

  lemma StripErases(prog: seq<Instruction>)
    ensures Erases(prog, Strip(prog))
  {
    PosEnd(prog);
    forall i | 0 <= i <= |prog|
      ensures Pos(prog, i) <= |Strip(prog)|
    {
      PosBound(prog, i);
    }
    forall i | 0 <= i < |prog| && prog[i] != Nop
      ensures Pos(prog, i) < |Strip(prog)| && Strip(prog)[Pos(prog, i)] == prog[i]
    {
      PosInstruction(prog, i);
    }
  }

  /** The state of the program without NOPs that corresponds to s. */
  function Lift(prog: seq<Instruction>, s: State): State
    requires s.ip <= |prog|
  {
    s.(ip := Pos(prog, s.ip))
  }

  function LiftStep(prog: seq<Instruction>, r: StepResult): StepResult
    requires r.Next? ==> r.next.ip <= |prog|
    requires r.Halt? ==> r.last.ip <= |prog|
  {
    match r
    case Next(t) => Next(Lift(prog, t))
    case Halt(o, t) => Halt(o, Lift(prog, t))
  }

  function LiftRun(prog: seq<Instruction>, r: RunResult): RunResult
    requires r.final.ip <= |prog|
  {
    match r
    case Done(o, t) => Done(o, Lift(prog, t))
    case OutOfFuel(t) => OutOfFuel(Lift(prog, t))
  }

  /** The forward scan finds the same bracket in both programs. */
  lemma {:induction false} ScanForwardErased(prog: seq<Instruction>, q: seq<Instruction>, i: nat, balance: nat)
    requires Erases(prog, q) && i <= |prog| && balance > 0
    ensures ScanForward(q, Pos(prog, i), balance) ==
      match ScanForward(prog, i, balance)
      case None => None
      case Some(j) => Some(Pos(prog, j))
    decreases |prog| - i
  {
    if i < |prog| && prog[i] == Nop {
      ScanForwardErased(prog, q, i + 1, balance);
    } else if i < |prog| {
      assert q[Pos(prog, i)] == prog[i];
      var b: nat := if prog[i] == JmpForward then balance + 1
                    else if prog[i] == JmpBack then balance - 1
                    else balance;
      if b != 0 {
        ScanForwardErased(prog, q, i + 1, b);
      }
    }
  }

  /** The backward scan finds the same bracket in both programs. */
  lemma {:induction false} ScanBackwardErased(prog: seq<Instruction>, q: seq<Instruction>, i: nat, balance: nat)
    requires Erases(prog, q) && i <= |prog| && balance > 0
    ensures ScanBackward(q, Pos(prog, i), balance) ==
      match ScanBackward(prog, i, balance)
      case None => None
      case Some(j) => Some(Pos(prog, j))
    decreases i
  {
    if i > 0 && prog[i - 1] == Nop {
      ScanBackwardErased(prog, q, i - 1, balance);
    } else if i > 0 {
      assert q[Pos(prog, i - 1)] == prog[i - 1];
      var b: nat := if prog[i - 1] == JmpBack then balance + 1
                    else if prog[i - 1] == JmpForward then balance - 1
                    else balance;
      if b != 0 {
        ScanBackwardErased(prog, q, i - 1, b);
      }
    }
  }

  /** `>`, `<` and `.` do the same in both programs. */
  lemma StepErasedMove(prog: seq<Instruction>, q: seq<Instruction>, s: State, alloc: nat -> bool)
    requires s.ip < |prog| && prog[s.ip] in {DpInc, DpDec, ValOutput}
    requires Pos(prog, s.ip) < |q| && q[Pos(prog, s.ip)] == prog[s.ip] && Pos(prog, |prog|) == |q|
    ensures Step(q, Lift(prog, s), alloc) == LiftStep(prog, Step(prog, s, alloc))
  {
    assert Pos(prog, s.ip + 1) == Pos(prog, s.ip) + 1;
    var t := Lift(prog, s);
    if prog[s.ip] == ValOutput {
      StepOutput(prog, s, alloc);
      StepOutput(q, t, alloc);
    } else {
      StepMove(prog, s, alloc);
      StepMove(q, t, alloc);
    }
  }

  /** The end of a cell update lands at the corresponding place of q. */
  lemma CellStepErased(prog: seq<Instruction>, q: seq<Instruction>, s: State, tape: Option<seq<byte>>)
    requires s.ip < |prog| && Pos(prog, s.ip) < |q| && Pos(prog, |prog|) == |q|
    requires Pos(prog, s.ip + 1) == Pos(prog, s.ip) + 1
    ensures CellStep(q, Lift(prog, s), tape) == LiftStep(prog, CellStep(prog, s, tape))
  {
  }

  /** `+`, `-` and `,` do the same in both programs. */
  lemma StepErasedCell(prog: seq<Instruction>, q: seq<Instruction>, s: State, alloc: nat -> bool)
    requires s.ip < |prog| && prog[s.ip] in {ValInc, ValDec, ValAccept}
    requires Pos(prog, s.ip) < |q| && q[Pos(prog, s.ip)] == prog[s.ip] && Pos(prog, |prog|) == |q|
    ensures Step(q, Lift(prog, s), alloc) == LiftStep(prog, Step(prog, s, alloc))
  {
    assert Pos(prog, s.ip + 1) == Pos(prog, s.ip) + 1;
    var ok := ReallocOk(alloc, s.dp);
    match prog[s.ip]
    case ValInc =>
      CellStepErased(prog, q, s, Incremented(s.tape, s.dp, ok));
    case ValDec =>
      CellStepErased(prog, q, s, Decremented(s.tape, s.dp, ok));
    case ValAccept =>
      if s.input != [] {
        CellStepErased(prog, q, s.(input := s.input[1..]), Assigned(s.tape, s.dp, s.input[0], ok));
      }
  }

  /** Landing after a bracket lands at the corresponding place of q. */
  lemma LandErased(prog: seq<Instruction>, q: seq<Instruction>, s: State, target: Option<nat>)
    requires Erases(prog, q) && s.ip <= |prog|
    requires target.Some? ==> target.value < |prog| && prog[target.value] != Nop
    ensures target.Some? ==> Pos(prog, target.value) < |q|
    ensures Land(q, Lift(prog, s), match target case None => None case Some(j) => Some(Pos(prog, j))) ==
            LiftStep(prog, Land(prog, s, target))
  {
    match target
    case None =>
    case Some(j) => assert q[Pos(prog, j)] == prog[j];
  }

  /** The forward scan and landing of `[` on a zero cell agree. */
  lemma SkipErased(prog: seq<Instruction>, q: seq<Instruction>, s: State)
    requires Erases(prog, q) && s.ip < |prog| && prog[s.ip] != Nop
    ensures Skip(q, Lift(prog, s)) == LiftStep(prog, Skip(prog, s))
  {
    ScanForwardErased(prog, q, s.ip + 1, 1);
    LandErased(prog, q, s, ScanForward(prog, s.ip + 1, 1));
  }

  /** The backward scan and landing of `]` on a nonzero cell agree. */
  lemma RepeatErased(prog: seq<Instruction>, q: seq<Instruction>, s: State)
    requires Erases(prog, q) && s.ip < |prog| && prog[s.ip] != Nop
    ensures Repeat(q, Lift(prog, s)) == LiftStep(prog, Repeat(prog, s))
  {
    ScanBackwardErased(prog, q, s.ip, 1);
    LandErased(prog, q, s, ScanBackward(prog, s.ip, 1));
  }

  lemma StepErasedForward(prog: seq<Instruction>, q: seq<Instruction>, s: State, alloc: nat -> bool)
    requires Erases(prog, q) && s.ip < |prog| && prog[s.ip] == JmpForward
    ensures Pos(prog, s.ip) < |q|
    ensures Step(q, Lift(prog, s), alloc) == LiftStep(prog, Step(prog, s, alloc))
  {
    assert q[Pos(prog, s.ip)] == prog[s.ip];
    assert Pos(prog, s.ip + 1) == Pos(prog, s.ip) + 1;
    StepForwardScan(prog, s, alloc);
    StepForwardScan(q, Lift(prog, s), alloc);
    SkipErased(prog, q, s);
  }

  lemma StepErasedBack(prog: seq<Instruction>, q: seq<Instruction>, s: State, alloc: nat -> bool)
    requires Erases(prog, q) && s.ip < |prog| && prog[s.ip] == JmpBack
    ensures Pos(prog, s.ip) < |q|
    ensures Step(q, Lift(prog, s), alloc) == LiftStep(prog, Step(prog, s, alloc))
  {
    assert q[Pos(prog, s.ip)] == prog[s.ip];
    assert Pos(prog, s.ip + 1) == Pos(prog, s.ip) + 1;
    StepBackwardScan(prog, s, alloc);
    StepBackwardScan(q, Lift(prog, s), alloc);
    RepeatErased(prog, q, s);
  }

  /** An instruction other than NOP does the same in both programs. */
  lemma StepErased(prog: seq<Instruction>, q: seq<Instruction>, s: State, alloc: nat -> bool)
    requires Erases(prog, q) && s.ip < |prog| && prog[s.ip] != Nop
    ensures Pos(prog, s.ip) < |q|
    ensures Step(q, Lift(prog, s), alloc) == LiftStep(prog, Step(prog, s, alloc))
  {
    if prog[s.ip] == JmpForward {
      StepErasedForward(prog, q, s, alloc);
    } else if prog[s.ip] == JmpBack {
      StepErasedBack(prog, q, s, alloc);
    } else {
      assert q[Pos(prog, s.ip)] == prog[s.ip];
      if prog[s.ip] in {DpInc, DpDec, ValOutput} {
        StepErasedMove(prog, q, s, alloc);
      } else {
        StepErasedCell(prog, q, s, alloc);
      }
    }
  }

  /** A run that ends ends alike, within the same fuel, without its NOPs. */
  lemma {:induction false} RunErased(prog: seq<Instruction>, q: seq<Instruction>, s: State, alloc: nat -> bool, fuel: nat)
    requires Erases(prog, q) && s.ip <= |prog|
    requires Run(prog, s, alloc, fuel).Done?
    ensures Run(q, Lift(prog, s), alloc, fuel) == LiftRun(prog, Run(prog, s, alloc, fuel))
    decreases fuel, 2
  {
    if s.ip < |prog| && prog[s.ip] == Nop {
      RunErasedNop(prog, q, s, alloc, fuel);
    } else if s.ip < |prog| {
      RunErasedStep(prog, q, s, alloc, fuel);
    }
  }

  lemma {:induction false} RunErasedNop(prog: seq<Instruction>, q: seq<Instruction>, s: State, alloc: nat -> bool, fuel: nat)
    requires Erases(prog, q) && s.ip < |prog| && prog[s.ip] == Nop
    requires Run(prog, s, alloc, fuel).Done?
    ensures Run(q, Lift(prog, s), alloc, fuel) == LiftRun(prog, Run(prog, s, alloc, fuel))
    decreases fuel, 1
  {
    var t := s.(ip := s.ip + 1);
    StepNop(prog, s, alloc);
    assert Run(prog, s, alloc, fuel) == Run(prog, t, alloc, fuel - 1);
    RunErased(prog, q, t, alloc, fuel - 1);
    assert Lift(prog, t) == Lift(prog, s);
    RunMonotone(q, Lift(prog, s), alloc, fuel - 1, fuel);
  }

  lemma {:induction false} RunErasedStep(prog: seq<Instruction>, q: seq<Instruction>, s: State, alloc: nat -> bool, fuel: nat)
    requires Erases(prog, q) && s.ip < |prog| && prog[s.ip] != Nop
    requires Run(prog, s, alloc, fuel).Done?
    ensures Run(q, Lift(prog, s), alloc, fuel) == LiftRun(prog, Run(prog, s, alloc, fuel))
    decreases fuel, 1
  {
    StepErased(prog, q, s, alloc);
    if Step(prog, s, alloc).Next? {
      RunErasedNext(prog, q, s, alloc, fuel);
    }
  }

  lemma {:induction false} RunErasedNext(prog: seq<Instruction>, q: seq<Instruction>, s: State, alloc: nat -> bool, fuel: nat)
    requires Erases(prog, q) && s.ip < |prog| && prog[s.ip] != Nop
    requires Run(prog, s, alloc, fuel).Done?
    requires Step(q, Lift(prog, s), alloc) == LiftStep(prog, Step(prog, s, alloc))
    requires Step(prog, s, alloc).Next?
    ensures Run(q, Lift(prog, s), alloc, fuel) == LiftRun(prog, Run(prog, s, alloc, fuel))
    decreases fuel, 0
  {
    RunErased(prog, q, Step(prog, s, alloc).next, alloc, fuel - 1);
  }

  /** Fuel enough for `fuel` + 1 instructions of the stripped program when each
      may be preceded by up to n NOPs. */
  function Allowance(n: nat, fuel: nat): (r: nat)
    ensures r >= n + 1
  {
    if fuel == 0 then n + 1 else Allowance(n, fuel - 1) + n + 1
  }

  /** The closed form of the fuel bound, for a reader of NopsInvisible. */
  lemma {:induction false} AllowanceProduct(n: nat, fuel: nat)
    ensures Allowance(n, fuel) == (fuel + 1) * (n + 1)
  {
    if fuel > 0 {
      AllowanceProduct(n, fuel - 1);
    }
  }

  /** A run of the stripped program that ends is matched by a run of the program,
      given enough fuel for the NOPs between instructions. */
  lemma {:induction false} RunUnerased(prog: seq<Instruction>, q: seq<Instruction>, s: State, alloc: nat -> bool, fuel: nat, budget: nat)
    requires Erases(prog, q) && s.ip <= |prog|
    requires Run(q, Lift(prog, s), alloc, fuel).Done?
    requires budget + s.ip >= Allowance(|prog|, fuel)
    ensures LiftRun(prog, Run(prog, s, alloc, budget)) == Run(q, Lift(prog, s), alloc, fuel)
    decreases fuel, |prog| - s.ip, 2
  {
    if s.ip < |prog| && prog[s.ip] == Nop {
      RunUnerasedNop(prog, q, s, alloc, fuel, budget);
    } else if s.ip < |prog| {
      RunUnerasedStep(prog, q, s, alloc, fuel, budget);
    }
  }

  lemma {:induction false} RunUnerasedNop(prog: seq<Instruction>, q: seq<Instruction>, s: State, alloc: nat -> bool, fuel: nat, budget: nat)
    requires Erases(prog, q) && s.ip < |prog| && prog[s.ip] == Nop
    requires Run(q, Lift(prog, s), alloc, fuel).Done?
    requires budget + s.ip >= Allowance(|prog|, fuel)
    ensures LiftRun(prog, Run(prog, s, alloc, budget)) == Run(q, Lift(prog, s), alloc, fuel)
    decreases fuel, |prog| - s.ip, 1
  {
    var t := s.(ip := s.ip + 1);
    StepNop(prog, s, alloc);
    assert Run(prog, s, alloc, budget) == Run(prog, t, alloc, budget - 1);
    assert Lift(prog, t) == Lift(prog, s);
    RunUnerased(prog, q, t, alloc, fuel, budget - 1);
  }

  lemma {:induction false} RunUnerasedStep(prog: seq<Instruction>, q: seq<Instruction>, s: State, alloc: nat -> bool, fuel: nat, budget: nat)
    requires Erases(prog, q) && s.ip < |prog| && prog[s.ip] != Nop
    requires Run(q, Lift(prog, s), alloc, fuel).Done?
    requires budget + s.ip >= Allowance(|prog|, fuel)
    ensures LiftRun(prog, Run(prog, s, alloc, budget)) == Run(q, Lift(prog, s), alloc, fuel)
    decreases fuel, |prog| - s.ip, 1
  {
    StepErased(prog, q, s, alloc);
    var r := Step(prog, s, alloc);
    if r.Next? {
      RunUnerasedNext(prog, q, s, alloc, fuel, budget);
    }
  }

  lemma {:induction false} RunUnerasedNext(prog: seq<Instruction>, q: seq<Instruction>, s: State, alloc: nat -> bool, fuel: nat, budget: nat)
    requires Erases(prog, q) && s.ip < |prog| && prog[s.ip] != Nop
    requires Run(q, Lift(prog, s), alloc, fuel).Done?
    requires budget + s.ip >= Allowance(|prog|, fuel)
    requires Step(q, Lift(prog, s), alloc) == LiftStep(prog, Step(prog, s, alloc))
    requires Step(prog, s, alloc).Next?
    ensures LiftRun(prog, Run(prog, s, alloc, budget)) == Run(q, Lift(prog, s), alloc, fuel)
    decreases fuel, |prog| - s.ip, 0
  {
    var u := Step(prog, s, alloc).next;
    assert fuel > 0;
    assert Allowance(|prog|, fuel) == Allowance(|prog|, fuel - 1) + |prog| + 1;
    RunUnerased(prog, q, u, alloc, fuel - 1, budget - 1);
  }

  /** NOPs are invisible: a program and the same program without its NOPs end
      with the same outcome, output, tape, data pointer and unread input. The
      stripped program needs no more fuel; the program needs at most
      Allowance(|prog|, fuel), that is (fuel + 1) * (|prog| + 1). */
  lemma NopsInvisible(prog: seq<Instruction>, input: seq<byte>, alloc: nat -> bool, fuel: nat)
    ensures var a := Run(prog, Initial(input), alloc, fuel);
      a.Done? ==>
        Run(Strip(prog), Initial(input), alloc, fuel) == Done(a.outcome, a.final.(ip := |Strip(prog)|))
    ensures var b := Run(Strip(prog), Initial(input), alloc, fuel);
      b.Done? ==>
        Run(prog, Initial(input), alloc, Allowance(|prog|, fuel)) == Done(b.outcome, b.final.(ip := |prog|))
  {
    var q := Strip(prog);
    StripErases(prog);
    assert Lift(prog, Initial(input)) == Initial(input);
    if Run(prog, Initial(input), alloc, fuel).Done? {
      RunErased(prog, q, Initial(input), alloc, fuel);
    }
    if Run(q, Initial(input), alloc, fuel).Done? {
      RunUnerased(prog, q, Initial(input), alloc, fuel, Allowance(|prog|, fuel));
    }
  }
}
