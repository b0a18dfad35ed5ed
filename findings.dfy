/** Two places where the interpreters, as written, leave their buffers. Each
    is stated here about a model of the code as written; the engine uses the
    corrected behaviour. */
module Findings {
  import opened Instructions
  import opened Tapes
  import opened Engine

  /** The indexes of the program the forward scan of `[` reads, as written:
      standing at index i with `balance` brackets open, it stops when i is the
      program size, and otherwise first advances and then reads, so from the
      last instruction it reads index |prog|, one past the end. What that read
      yields is undefined, so nothing after it is recorded. */
  function ForwardReadsAsWritten(prog: seq<Instruction>, i: nat, balance: nat): (r: seq<nat>)
    requires i <= |prog| && balance > 0
    ensures forall k :: 0 <= k < |r| ==> i < r[k] <= |prog|
    decreases |prog| - i
  {
    if i == |prog| then []
    else if i + 1 == |prog| then [i + 1]
    else
      var b: nat := if prog[i + 1] == JmpForward then balance + 1
                    else if prog[i + 1] == JmpBack then balance - 1
                    else balance;
      [i + 1] + (if b == 0 then [] else ForwardReadsAsWritten(prog, i + 1, b))
  }

  /** As written, the scan reads past the end exactly when the corrected scan
      finds no matching `]`. */
  lemma {:induction false} ReadsPastEndIffUnmatched(prog: seq<Instruction>, i: nat, balance: nat)
    requires i < |prog| && balance > 0
    ensures |prog| in ForwardReadsAsWritten(prog, i, balance) <==> ScanForward(prog, i + 1, balance) == None
    decreases |prog| - i
  {
    if i + 1 < |prog| {
      var b: nat := if prog[i + 1] == JmpForward then balance + 1
                    else if prog[i + 1] == JmpBack then balance - 1
                    else balance;
      if b != 0 {
        ReadsPastEndIffUnmatched(prog, i + 1, b);
      }
    }
  }

  /** The one-instruction program `[` on a zero cell: the scan reads index 1. */
  lemma LoneOpenReadsPastEnd()
    ensures ForwardReadsAsWritten([JmpForward], 0, 1) == [1]
  {
  }

  /** size_t on a 64-bit target. */
  const SIZE_MODULUS: nat := 0x1_0000_0000_0000_0000

  /** `<` as written: size_t decrement, wrapping at 0. */
  function MoveLeftAsWritten(dp: nat): (r: nat)
    requires dp < SIZE_MODULUS
    ensures r < SIZE_MODULUS
    ensures dp > 0 ==> r == dp - 1
  {
    (dp + SIZE_MODULUS - 1) % SIZE_MODULUS
  }

  /** The buffer size after data_bound as written, in size_t arithmetic: cell
      dp is inside it exactly when the buffer already held it or the requested
      size does not wrap. */
  function BoundSizeAsWritten(size: nat, dp: nat): (r: nat)
    requires size < SIZE_MODULUS && dp < SIZE_MODULUS
    ensures r < SIZE_MODULUS
    ensures dp < size ==> r == size
    ensures dp + 1 + GRANULARITY < SIZE_MODULUS ==> dp < r
    ensures dp >= size && dp + 1 + GRANULARITY >= SIZE_MODULUS ==> r <= dp
  {
    if dp >= size then (dp + 1 + GRANULARITY) % SIZE_MODULUS else size
  }

  /** `<+` as written: after `<` at dp 0 the pointer is SIZE_MAX, data_bound
      grows the buffer to GRANULARITY cells only, and the `+` then writes
      data[SIZE_MAX], outside the buffer. */
  lemma WrappedPointerEscapesBuffer()
    ensures var dp := MoveLeftAsWritten(0);
      dp == SIZE_MODULUS - 1 &&
      BoundSizeAsWritten(0, dp) == GRANULARITY &&
      dp >= BoundSizeAsWritten(0, dp)
  {
  }

  /** The corrected engine on `<+`: the run stops at the `<` before any cell is
      touched, distinguishably from a clean finish. */
  lemma LeftThenIncrementFaults(alloc: nat -> bool, fuel: nat)
    requires fuel >= 1
    ensures Run([DpDec, ValInc], Initial([]), alloc, fuel) == Done(InvalidPointerMotion, State(2, 0, [], [], []))
  {
  }
}
