/** The execution engine shared by both interpreters: the fetch/decode/execute
    loop of main, run over an already decoded program, with the balance-counted
    bracket scans. */
module Engine {
  import opened Instructions
  import opened Tapes

  /** How a run ends. The source ends every run but InvalidPointerMotion by
      leaving its main loop (at `<` with dp 0 it wraps dp and carries on); each
      early stop is a separate variant here. */
  datatype Outcome =
    | Finished              // ip ran past the last instruction
    | EndOfInput            // `,` read end of input
    | OutOfMemory           // growing the tape failed
    | UnmatchedBracket      // a bracket scan ran off the program
    | InvalidPointerMotion  // `<` with the data pointer at 0

  /** The machine: instruction pointer, data pointer, tape buffer, the input
      not yet read and the output written so far. */
  datatype State = State(ip: nat, dp: nat, tape: seq<byte>, input: seq<byte>, output: seq<byte>)

  /** The machine before the first turn: ip and dp at 0, nothing written or read
      yet, and every cell 0 (data_init). */
  function Initial(input: seq<byte>): (s: State)
    ensures s.ip == 0 && s.dp == 0 && s.input == input && s.output == []
    ensures forall k: nat :: Read(s.tape, k) == 0
  {
    State(0, 0, [], input, [])
  }

  datatype StepResult = Next(next: State) | Halt(outcome: Outcome, last: State)

  datatype RunResult = Done(outcome: Outcome, final: State) | OutOfFuel(final: State)

  /** The real-allocation answer for growing the tape so that cell dp exists:
      the oracle is asked about the size the source requests. */
  function ReallocOk(alloc: nat -> bool, dp: nat): bool
  {
    alloc(dp + 1 + GRANULARITY)
  }

  // ---------------------------------------------------------------------------
  // Bracket nesting, as a reference definition

  function Weight(i: Instruction): int
  {
    if i == JmpForward then 1 else if i == JmpBack then -1 else 0
  }

  /** Opening minus closing brackets in s. */
  function Depth(s: seq<Instruction>): int
  {
    if s == [] then 0 else Weight(s[0]) + Depth(s[1..])
  }

  lemma {:induction false} DepthSnoc(s: seq<Instruction>, x: Instruction)
    ensures Depth(s + [x]) == Depth(s) + Weight(x)
  {
    if s == [] {
      assert s + [x] == [x];
    } else {
      assert (s + [x])[1..] == s[1..] + [x];
      DepthSnoc(s[1..], x);
    }
  }

  /** The nesting of prog[i..j], both ends included. */
  function Span(prog: seq<Instruction>, i: nat, j: nat): int
    requires i <= j < |prog|
  {
    Depth(prog[i..j + 1])
  }

  /** j is the JmpBack that closes the JmpForward at ip: the first index after
      ip at which the nesting of prog[ip..] returns to zero. */
  ghost predicate ForwardMatch(prog: seq<Instruction>, ip: nat, j: nat)
  {
    ip < j < |prog| &&
    Span(prog, ip, j) == 0 &&
    forall k :: ip <= k < j ==> Span(prog, ip, k) > 0
  }

  /** The JmpForward at ip is never closed. */
  ghost predicate NoForwardMatch(prog: seq<Instruction>, ip: nat)
    requires ip < |prog|
  {
    forall k :: ip <= k < |prog| ==> Span(prog, ip, k) > 0
  }

  /** j is the JmpForward that opens the JmpBack at ip: the last index before
      ip at which the nesting of prog[..ip + 1], counted backwards, returns to zero. */
  ghost predicate BackwardMatch(prog: seq<Instruction>, ip: nat, j: nat)
  {
    j < ip < |prog| &&
    Span(prog, j, ip) == 0 &&
    forall k :: j < k <= ip ==> Span(prog, k, ip) < 0
  }

  /** The JmpBack at ip is never opened. */
  ghost predicate NoBackwardMatch(prog: seq<Instruction>, ip: nat)
    requires ip < |prog|
  {
    forall k :: 0 <= k <= ip ==> Span(prog, k, ip) < 0
  }

  // ---------------------------------------------------------------------------
  // The scans, as the source performs them

  /** Forward scan: examine index i with `balance` brackets still open. */
  function ScanForward(prog: seq<Instruction>, i: nat, balance: nat): (r: Option<nat>)
    requires i <= |prog| && balance > 0
    ensures r.Some? ==> i <= r.value < |prog| && prog[r.value] == JmpBack
    decreases |prog| - i
  {
    if i == |prog| then None
    else
      var b: nat := if prog[i] == JmpForward then balance + 1
                    else if prog[i] == JmpBack then balance - 1
                    else balance;
      if b == 0 then Some(i) else ScanForward(prog, i + 1, b)
  }

  /** Backward scan: examine index i - 1 with `balance` brackets still closed. */
  function ScanBackward(prog: seq<Instruction>, i: nat, balance: nat): (r: Option<nat>)
    requires i <= |prog| && balance > 0
    ensures r.Some? ==> r.value < i && prog[r.value] == JmpForward
  {
    if i == 0 then None
    else
      var b: nat := if prog[i - 1] == JmpBack then balance + 1
                    else if prog[i - 1] == JmpForward then balance - 1
                    else balance;
      if b == 0 then Some(i - 1) else ScanBackward(prog, i - 1, b)
  }

  lemma {:induction false} ScanForwardFrom(prog: seq<Instruction>, ip: nat, i: nat, balance: nat)
    requires ip < i <= |prog| && balance > 0
    requires balance == Depth(prog[ip..i])
    requires forall k :: ip <= k < i ==> Span(prog, ip, k) > 0
    ensures match ScanForward(prog, i, balance)
            case Some(j) => ForwardMatch(prog, ip, j)
            case None => NoForwardMatch(prog, ip)
    decreases |prog| - i
  {
    if i < |prog| {
      assert prog[ip..i + 1] == prog[ip..i] + [prog[i]];
      DepthSnoc(prog[ip..i], prog[i]);
      var b := Depth(prog[ip..i + 1]);
      if b != 0 {
        ScanForwardFrom(prog, ip, i + 1, b);
      }
    }
  }

  /** The source's forward scan from a JmpForward finds exactly its match. */
  lemma ScanForwardCorrect(prog: seq<Instruction>, ip: nat)
    requires ip < |prog| && prog[ip] == JmpForward
    ensures match ScanForward(prog, ip + 1, 1)
            case Some(j) => ForwardMatch(prog, ip, j)
            case None => NoForwardMatch(prog, ip)
  {
    assert Depth(prog[ip..ip + 1]) == 1 by {
      assert prog[ip..ip + 1][1..] == [];
    }
    ScanForwardFrom(prog, ip, ip + 1, 1);
  }

  lemma {:induction false} ScanBackwardFrom(prog: seq<Instruction>, ip: nat, i: nat, balance: nat)
    requires i <= ip < |prog| && balance > 0
    requires balance == -Depth(prog[i..ip + 1])
    requires forall k :: i <= k <= ip ==> Span(prog, k, ip) < 0
    ensures match ScanBackward(prog, i, balance)
            case Some(j) => BackwardMatch(prog, ip, j)
            case None => NoBackwardMatch(prog, ip)
    decreases i
  {
    if i > 0 {
      assert prog[i - 1..ip + 1][1..] == prog[i..ip + 1];
      var b := -Depth(prog[i - 1..ip + 1]);
      if b != 0 {
        ScanBackwardFrom(prog, ip, i - 1, b);
      }
    }
  }

  /** The source's backward scan from a JmpBack finds exactly its match. */
  lemma ScanBackwardCorrect(prog: seq<Instruction>, ip: nat)
    requires ip < |prog| && prog[ip] == JmpBack
    ensures match ScanBackward(prog, ip, 1)
            case Some(j) => BackwardMatch(prog, ip, j)
            case None => NoBackwardMatch(prog, ip)
  {
    assert Depth(prog[ip..ip + 1]) == -1 by {
      assert prog[ip..ip + 1][1..] == [];
    }
    ScanBackwardFrom(prog, ip, ip, 1);
  }

  /** A match is a bracket of the other kind. */
  lemma MatchIsBracket(prog: seq<Instruction>, ip: nat, j: nat)
    ensures ForwardMatch(prog, ip, j) ==> prog[j] == JmpBack
    ensures BackwardMatch(prog, ip, j) ==> prog[j] == JmpForward
  {
    if ForwardMatch(prog, ip, j) {
      assert prog[ip..j + 1] == prog[ip..j] + [prog[j]];
      DepthSnoc(prog[ip..j], prog[j]);
      assert Span(prog, ip, j - 1) > 0;
    }
    if BackwardMatch(prog, ip, j) {
      assert prog[j..ip + 1][1..] == prog[j + 1..ip + 1];
      assert Span(prog, j + 1, ip) < 0;
    }
  }

  // ---------------------------------------------------------------------------
  // One instruction

  /** Execute the instruction at ip (one iteration of main's loop). */
  function Step(prog: seq<Instruction>, s: State, alloc: nat -> bool): (r: StepResult)
    requires s.ip < |prog|
    // the machine stays inside the program; every early stop leaves ip at its end
    ensures r.Next? ==> r.next.ip <= |prog|
    ensures r.Halt? ==> r.last.ip == |prog| && r.outcome != Finished
  {
    match prog[s.ip]
    case DpInc => Next(s.(ip := s.ip + 1, dp := s.dp + 1))
    case DpDec =>
      if s.dp == 0 then Halt(InvalidPointerMotion, s.(ip := |prog|))
      else Next(s.(ip := s.ip + 1, dp := s.dp - 1))
    case ValInc => Increment(prog, s, alloc)
    case ValDec => Decrement(prog, s, alloc)
    case ValOutput => Next(s.(ip := s.ip + 1, output := s.output + [Read(s.tape, s.dp)]))
    case ValAccept =>
      if s.input == [] then Halt(EndOfInput, s.(ip := |prog|))
      else Accept(prog, s, alloc)
    case JmpForward =>
      if Read(s.tape, s.dp) != 0 then Next(s.(ip := s.ip + 1))
      else Skip(prog, s)
    case JmpBack =>
      if Read(s.tape, s.dp) == 0 then Next(s.(ip := s.ip + 1))
      else Repeat(prog, s)
    case Nop => Next(s.(ip := s.ip + 1))
  }

  /** `+` past the dispatch: cell dp plus one, growing the tape if need be. */
  function Increment(prog: seq<Instruction>, s: State, alloc: nat -> bool): StepResult
    requires s.ip < |prog|
  {
    CellStep(prog, s, Incremented(s.tape, s.dp, ReallocOk(alloc, s.dp)))
  }

  /** `-` past the dispatch: cell dp minus one, growing the tape if need be. */
  function Decrement(prog: seq<Instruction>, s: State, alloc: nat -> bool): StepResult
    requires s.ip < |prog|
  {
    CellStep(prog, s, Decremented(s.tape, s.dp, ReallocOk(alloc, s.dp)))
  }

  /** `,` with input left: consume one byte and store it in cell dp. */
  function Accept(prog: seq<Instruction>, s: State, alloc: nat -> bool): StepResult
    requires s.ip < |prog| && s.input != []
  {
    CellStep(prog, s.(input := s.input[1..]), Assigned(s.tape, s.dp, s.input[0], ReallocOk(alloc, s.dp)))
  }

  /** `[` on a zero cell: resume after the matching `]`. */
  function Skip(prog: seq<Instruction>, s: State): StepResult
    requires s.ip < |prog|
  {
    Land(prog, s, ScanForward(prog, s.ip + 1, 1))
  }

  /** `]` on a nonzero cell: resume after the matching `[`. */
  function Repeat(prog: seq<Instruction>, s: State): StepResult
    requires s.ip < |prog|
  {
    Land(prog, s, ScanBackward(prog, s.ip, 1))
  }

  /** The end of an instruction that updates the tape: the new tape, or the
      out-of-memory stop when the buffer could not grow. */
  function CellStep(prog: seq<Instruction>, s: State, tape: Option<seq<byte>>): StepResult
    requires s.ip < |prog|
  {
    match tape
    case None => Halt(OutOfMemory, s.(ip := |prog|))
    case Some(t) => Next(s.(ip := s.ip + 1, tape := t))
  }

  /** The end of a jump that scanned for its match: resume right after the match,
      or stop when there is none. */
  function Land(prog: seq<Instruction>, s: State, target: Option<nat>): StepResult
    requires target.Some? ==> target.value < |prog|
  {
    match target
    case None => Halt(UnmatchedBracket, s.(ip := |prog|))
    case Some(j) => Next(s.(ip := j + 1))
  }

  // StepForwardScan, StepBackwardScan, StepMove and StepNop each restate one
  // arm of Step. They are unfolding helpers: proofs about Step on two programs
  // at once use one arm without unfolding the whole match.

  /** `[` tests the cell and scans forward for its match. */
  lemma StepForwardScan(prog: seq<Instruction>, s: State, alloc: nat -> bool)
    requires s.ip < |prog| && prog[s.ip] == JmpForward
    ensures Step(prog, s, alloc) ==
      if Read(s.tape, s.dp) != 0 then Next(s.(ip := s.ip + 1)) else Skip(prog, s)
  {
  }

  /** `]` tests the cell and scans backward for its match. */
  lemma StepBackwardScan(prog: seq<Instruction>, s: State, alloc: nat -> bool)
    requires s.ip < |prog| && prog[s.ip] == JmpBack
    ensures Step(prog, s, alloc) ==
      if Read(s.tape, s.dp) == 0 then Next(s.(ip := s.ip + 1)) else Repeat(prog, s)
  {
  }

  /** `>` and `<` change only dp; `<` with dp at 0 is a fault. */
  lemma StepMove(prog: seq<Instruction>, s: State, alloc: nat -> bool)
    requires s.ip < |prog| && prog[s.ip] in {DpInc, DpDec}
    ensures var r := Step(prog, s, alloc);
      prog[s.ip] == DpInc ==> r == Next(s.(ip := s.ip + 1, dp := s.dp + 1))
    ensures var r := Step(prog, s, alloc);
      prog[s.ip] == DpDec ==>
        r == if s.dp == 0 then Halt(InvalidPointerMotion, s.(ip := |prog|))
             else Next(s.(ip := s.ip + 1, dp := s.dp - 1))
  {
  }

  /** `+` and `-` change only cell dp, by one modulo 256, or end the run when the
      tape has to grow and cannot. */
  lemma StepCell(prog: seq<Instruction>, s: State, alloc: nat -> bool)
    requires s.ip < |prog| && prog[s.ip] in {ValInc, ValDec}
    ensures var r := Step(prog, s, alloc);
      r.Halt? <==> s.dp >= |s.tape| && !ReallocOk(alloc, s.dp)
    ensures var r := Step(prog, s, alloc);
      r.Halt? ==> r.outcome == OutOfMemory && r.last == s.(ip := |prog|)
    ensures var r := Step(prog, s, alloc);
      r.Next? ==>
        r.next.ip == s.ip + 1 && r.next.dp == s.dp &&
        r.next.input == s.input && r.next.output == s.output &&
        (forall k: nat :: k != s.dp ==> Read(r.next.tape, k) == Read(s.tape, k)) &&
        Read(r.next.tape, s.dp) as int ==
          (Read(s.tape, s.dp) as int + (if prog[s.ip] == ValInc then 1 else 255)) % 256
  {
  }

  /** `.` appends the current cell's value to the output and changes nothing else. */
  lemma StepOutput(prog: seq<Instruction>, s: State, alloc: nat -> bool)
    requires s.ip < |prog| && prog[s.ip] == ValOutput
    ensures var r := Step(prog, s, alloc);
      r.Next? && r.next.output == s.output + [Read(s.tape, s.dp)] &&
      r.next.tape == s.tape && r.next.dp == s.dp && r.next.input == s.input &&
      r.next.ip == s.ip + 1
  {
  }

  /** `,` at end of input ends the run without writing the tape; otherwise it
      consumes one byte and stores it in cell dp, which may end the run when the
      tape cannot grow. */
  lemma StepInput(prog: seq<Instruction>, s: State, alloc: nat -> bool)
    requires s.ip < |prog| && prog[s.ip] == ValAccept
    ensures var r := Step(prog, s, alloc);
      s.input == [] ==> r == Halt(EndOfInput, s.(ip := |prog|))
    ensures var r := Step(prog, s, alloc);
      s.input != [] && r.Next? ==>
        r.next.ip == s.ip + 1 && r.next.dp == s.dp && r.next.input == s.input[1..] &&
        r.next.output == s.output && Read(r.next.tape, s.dp) == s.input[0] &&
        forall k: nat :: k != s.dp ==> Read(r.next.tape, k) == Read(s.tape, k)
    ensures var r := Step(prog, s, alloc);
      s.input != [] ==> (r.Halt? <==> s.dp >= |s.tape| && !ReallocOk(alloc, s.dp))
    ensures var r := Step(prog, s, alloc);
      s.input != [] && r.Halt? ==>
        s.dp >= |s.tape| && !ReallocOk(alloc, s.dp) &&
        r == Halt(OutOfMemory, s.(ip := |prog|, input := s.input[1..]))
  {
  }

  /** A NOP only moves on. */
  lemma StepNop(prog: seq<Instruction>, s: State, alloc: nat -> bool)
    requires s.ip < |prog| && prog[s.ip] == Nop
    ensures Step(prog, s, alloc) == Next(s.(ip := s.ip + 1))
  {
  }

  /** `[` on a zero cell resumes right after its match, or ends the run when there
      is none; on a nonzero cell it falls through. */
  lemma StepJumpForward(prog: seq<Instruction>, s: State, alloc: nat -> bool)
    requires s.ip < |prog| && prog[s.ip] == JmpForward
    ensures Read(s.tape, s.dp) != 0 ==> Step(prog, s, alloc) == Next(s.(ip := s.ip + 1))
    ensures Read(s.tape, s.dp) == 0 ==>
      forall j: nat :: ForwardMatch(prog, s.ip, j) ==> Step(prog, s, alloc) == Next(s.(ip := j + 1))
    ensures Read(s.tape, s.dp) == 0 && NoForwardMatch(prog, s.ip) ==>
      Step(prog, s, alloc) == Halt(UnmatchedBracket, s.(ip := |prog|))
  {
    ScanForwardCorrect(prog, s.ip);
    match ScanForward(prog, s.ip + 1, 1)
    case None =>
    case Some(m) =>
      forall j: nat | ForwardMatch(prog, s.ip, j) ensures j == m {
      }
  }

  /** `]` on a nonzero cell resumes right after its match, or ends the run when
      there is none; on a zero cell it falls through. */
  lemma StepJumpBack(prog: seq<Instruction>, s: State, alloc: nat -> bool)
    requires s.ip < |prog| && prog[s.ip] == JmpBack
    ensures Read(s.tape, s.dp) == 0 ==> Step(prog, s, alloc) == Next(s.(ip := s.ip + 1))
    ensures Read(s.tape, s.dp) != 0 ==>
      forall j: nat :: BackwardMatch(prog, s.ip, j) ==> Step(prog, s, alloc) == Next(s.(ip := j + 1))
    ensures Read(s.tape, s.dp) != 0 && NoBackwardMatch(prog, s.ip) ==>
      Step(prog, s, alloc) == Halt(UnmatchedBracket, s.(ip := |prog|))
  {
    ScanBackwardCorrect(prog, s.ip);
    match ScanBackward(prog, s.ip, 1)
    case None =>
    case Some(m) =>
      forall j: nat | BackwardMatch(prog, s.ip, j) ensures j == m {
      }
  }

  // ---------------------------------------------------------------------------
  // A whole run

  /** Run at most `fuel` instructions from s. */
  function Run(prog: seq<Instruction>, s: State, alloc: nat -> bool, fuel: nat): (r: RunResult)
    requires s.ip <= |prog|
    ensures r.Done? ==> r.final.ip == |prog|
    ensures r.OutOfFuel? ==> r.final.ip < |prog|
    decreases fuel
  {
    if s.ip == |prog| then Done(Finished, s)
    else if fuel == 0 then OutOfFuel(s)
    else
      match Step(prog, s, alloc)
      case Halt(o, t) => Done(o, t)
      case Next(t) => Run(prog, t, alloc, fuel - 1)
  }

  /** t carries on from s: the output has only been appended to and the input
      only consumed from the front. */
  ghost predicate Extends(s: State, t: State)
  {
    s.output <= t.output &&
    |t.input| <= |s.input| && t.input == s.input[|s.input| - |t.input|..]
  }

  lemma ExtendsTransitive(s: State, t: State, u: State)
    requires Extends(s, t) && Extends(t, u)
    ensures Extends(s, u)
  {
    assert s.input[|s.input| - |t.input|..][|t.input| - |u.input|..] == s.input[|s.input| - |u.input|..];
  }

  lemma StepExtends(prog: seq<Instruction>, s: State, alloc: nat -> bool)
    requires s.ip < |prog|
    ensures var r := Step(prog, s, alloc);
      Extends(s, if r.Next? then r.next else r.last)
  {
    assert s.input == s.input[|s.input| - |s.input|..];
    if prog[s.ip] == ValAccept && s.input != [] {
      assert s.input[1..] == s.input[|s.input| - |s.input[1..]|..];
    }
  }

  /** Output written is never taken back and input read is never given back. */
  lemma {:induction false} RunExtends(prog: seq<Instruction>, s: State, alloc: nat -> bool, fuel: nat)
    requires s.ip <= |prog|
    ensures Extends(s, Run(prog, s, alloc, fuel).final)
    decreases fuel
  {
    if s.ip < |prog| && fuel > 0 {
      StepExtends(prog, s, alloc);
      match Step(prog, s, alloc)
      case Halt(_, _) =>
      case Next(t) =>
        RunExtends(prog, t, alloc, fuel - 1);
        ExtendsTransitive(s, t, Run(prog, t, alloc, fuel - 1).final);
    }
  }

  /** More fuel does not change a run that has ended. */
  lemma {:induction false} RunMonotone(prog: seq<Instruction>, s: State, alloc: nat -> bool, f1: nat, f2: nat)
    requires s.ip <= |prog| && f1 <= f2
    requires Run(prog, s, alloc, f1).Done?
    ensures Run(prog, s, alloc, f2) == Run(prog, s, alloc, f1)
    decreases f1, 1
  {
    if s.ip < |prog| && Step(prog, s, alloc).Next? {
      RunMonotoneNext(prog, s, alloc, f1, f2);
    }
  }

  lemma {:induction false} RunMonotoneNext(prog: seq<Instruction>, s: State, alloc: nat -> bool, f1: nat, f2: nat)
    requires s.ip < |prog| && f1 <= f2 && Step(prog, s, alloc).Next?
    requires Run(prog, s, alloc, f1).Done?
    ensures Run(prog, s, alloc, f2) == Run(prog, s, alloc, f1)
    decreases f1, 0
  {
    RunMonotone(prog, Step(prog, s, alloc).next, alloc, f1 - 1, f2 - 1);
  }

  // ---------------------------------------------------------------------------
  // The loop of main

  /** The forward bracket scan of main. */
  method MatchForward(prog: seq<Instruction>, ip: nat) returns (found: bool, j: nat)
    requires ip < |prog| && prog[ip] == JmpForward
    ensures found ==> ForwardMatch(prog, ip, j)
    ensures !found ==> NoForwardMatch(prog, ip)
  {
    assert Depth(prog[ip..ip + 1]) == 1 by {
      assert prog[ip..ip + 1][1..] == [];
    }
    var balance: nat := 1;
    j := ip;
    while balance != 0
      invariant ip <= j < |prog|
      invariant balance == Depth(prog[ip..j + 1])
      invariant forall k :: ip <= k < j ==> Span(prog, ip, k) > 0
      decreases |prog| - j
    {
      if j + 1 == |prog| {
        return false, 0;
      }
      j := j + 1;
      assert prog[ip..j + 1] == prog[ip..j] + [prog[j]];
      DepthSnoc(prog[ip..j], prog[j]);
      match prog[j]
      case JmpForward => balance := balance + 1;
      case JmpBack => balance := balance - 1;
      case _ =>
    }
    return true, j;
  }

  /** The backward bracket scan of main. */
  method MatchBackward(prog: seq<Instruction>, ip: nat) returns (found: bool, j: nat)
    requires ip < |prog| && prog[ip] == JmpBack
    ensures found ==> BackwardMatch(prog, ip, j)
    ensures !found ==> NoBackwardMatch(prog, ip)
  {
    assert Depth(prog[ip..ip + 1]) == -1 by {
      assert prog[ip..ip + 1][1..] == [];
    }
    var balance: nat := 1;
    j := ip;
    while balance != 0
      invariant j <= ip
      invariant balance == -Depth(prog[j..ip + 1])
      invariant forall k :: j < k <= ip ==> Span(prog, k, ip) < 0
      decreases j
    {
      if j == 0 {
        return false, 0;
      }
      j := j - 1;
      assert prog[j..ip + 1][1..] == prog[j + 1..ip + 1];
      match prog[j]
      case JmpForward => balance := balance - 1;
      case JmpBack => balance := balance + 1;
      case _ =>
    }
    return true, j;
  }

  /** The cell instructions `+`, `-` and `,` of one turn of main's loop. */
  method TurnCell(prog: seq<Instruction>, tape: Tape, ip: nat, dp: nat, rest: seq<byte>, out: seq<byte>, alloc: nat -> bool)
    returns (outcome: Outcome, ip': nat, rest': seq<byte>)
    requires ip < |prog| && prog[ip] in {ValInc, ValDec, ValAccept} && tape.Valid()
    modifies tape, tape.data
    ensures tape.Valid() && (tape.data == old(tape.data) || fresh(tape.data))
    ensures Step(prog, State(ip, dp, old(tape.Cells()), rest, out), alloc) ==
      if outcome == Finished then Next(State(ip', dp, tape.Cells(), rest', out))
      else Halt(outcome, State(ip', dp, tape.Cells(), rest', out))
  {
    outcome, ip', rest' := Finished, ip + 1, rest;
    var ok := true;
    if prog[ip] == ValInc {
      ok := tape.Inc(dp, ReallocOk(alloc, dp));
    } else if prog[ip] == ValDec {
      ok := tape.Dec(dp, ReallocOk(alloc, dp));
    } else if rest == [] {
      return EndOfInput, |prog|, rest;
    } else {
      rest' := rest[1..];
      ok := tape.Set(dp, rest[0], ReallocOk(alloc, dp));
    }
    if !ok {
      outcome, ip' := OutOfMemory, |prog|;
    }
  }

  /** The jumps `[` and `]` of one turn of main's loop. */
  method TurnJump(prog: seq<Instruction>, tape: Tape, ip: nat, dp: nat, rest: seq<byte>, out: seq<byte>, alloc: nat -> bool)
    returns (outcome: Outcome, ip': nat)
    requires ip < |prog| && prog[ip] in {JmpForward, JmpBack} && tape.Valid()
    ensures Step(prog, State(ip, dp, tape.Cells(), rest, out), alloc) ==
      if outcome == Finished then Next(State(ip', dp, tape.Cells(), rest, out))
      else Halt(outcome, State(ip', dp, tape.Cells(), rest, out))
  {
    ghost var cur := State(ip, dp, tape.Cells(), rest, out);
    var v := tape.Get(dp);
    outcome, ip' := Finished, ip + 1;
    var found, j := false, 0;
    if prog[ip] == JmpForward {
      StepJumpForward(prog, cur, alloc);
      if v != 0 {
        return;
      }
      found, j := MatchForward(prog, ip);
    } else {
      StepJumpBack(prog, cur, alloc);
      if v == 0 {
        return;
      }
      found, j := MatchBackward(prog, ip);
    }
    if found {
      ip' := j + 1;
    } else {
      outcome, ip' := UnmatchedBracket, |prog|;
    }
  }

  /** One turn of main's execution loop: the instruction at ip runs on `tape`. */
  method Turn(prog: seq<Instruction>, tape: Tape, ip: nat, dp: nat, rest: seq<byte>, out: seq<byte>, alloc: nat -> bool)
    returns (outcome: Outcome, ip': nat, dp': nat, rest': seq<byte>, out': seq<byte>)
    requires ip < |prog| && tape.Valid()
    modifies tape, tape.data
    ensures tape.Valid() && (tape.data == old(tape.data) || fresh(tape.data))
    ensures Step(prog, State(ip, dp, old(tape.Cells()), rest, out), alloc) ==
      if outcome == Finished then Next(State(ip', dp', tape.Cells(), rest', out'))
      else Halt(outcome, State(ip', dp', tape.Cells(), rest', out'))
  {
    outcome, ip', dp', rest', out' := Finished, ip + 1, dp, rest, out;
    match prog[ip] {
    case DpInc =>
      dp' := dp + 1;
    case DpDec =>
      if dp == 0 {
        outcome, ip' := InvalidPointerMotion, |prog|;
      } else {
        dp' := dp - 1;
      }
    case ValOutput =>
      var v := tape.Get(dp);
      out' := out + [v];
    case Nop =>
    case JmpForward =>
      outcome, ip' := TurnJump(prog, tape, ip, dp, rest, out, alloc);
    case JmpBack =>
      outcome, ip' := TurnJump(prog, tape, ip, dp, rest, out, alloc);
    case _ =>
      outcome, ip', rest' := TurnCell(prog, tape, ip, dp, rest, out, alloc);
    }
  }

  /** main's execution loop over a decoded program, for at most `fuel`
      instructions, on a fresh tape. */
  method Execute(prog: seq<Instruction>, input: seq<byte>, alloc: nat -> bool, fuel: nat)
    returns (r: RunResult)
    ensures r == Run(prog, Initial(input), alloc, fuel)
  {
    var ip: nat, dp: nat := 0, 0;
    var tape := new Tape();
    var rest, out := input, [];
    var outcome := Finished;
    var steps: nat := 0;
    while ip < |prog| && steps < fuel
      invariant ip <= |prog| && steps <= fuel
      invariant tape.Valid() && fresh(tape) && fresh(tape.data)
      invariant ip < |prog| ==> outcome == Finished
      invariant Run(prog, Initial(input), alloc, fuel) ==
        if outcome == Finished then Run(prog, State(ip, dp, tape.Cells(), rest, out), alloc, fuel - steps)
        else Done(outcome, State(ip, dp, tape.Cells(), rest, out))
      decreases fuel - steps
    {
      outcome, ip, dp, rest, out := Turn(prog, tape, ip, dp, rest, out, alloc);
      steps := steps + 1;
    }
    var last := State(ip, dp, tape.Cells(), rest, out);
    r := if ip < |prog| then OutOfFuel(last) else Done(outcome, last);
  }
}
