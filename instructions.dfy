/** The instruction set shared by Brainfuck and Ichiglyph: eight instructions
    plus NOP, which stands for every unit that is not an instruction. */
module Instructions {

  /** One byte of a program text, of the input or of the tape (C's uint8_t). */
  type byte = bv8

  datatype Option<T> = None | Some(value: T)

  /** The nine instruction kinds, in the order of the source's instruction_t. */
  datatype Instruction =
    | DpInc       // move the data pointer right
    | DpDec       // move the data pointer left
    | ValInc      // increment the current cell
    | ValDec      // decrement the current cell
    | ValOutput   // write the current cell
    | ValAccept   // read one input byte into the current cell
    | JmpForward  // skip past the matching JmpBack when the cell is 0
    | JmpBack     // return past the matching JmpForward when the cell is not 0
    | Nop          // anything else: ignored

  /** The program with every NOP removed, order kept. */
  function Strip(prog: seq<Instruction>): (r: seq<Instruction>)
    ensures |r| <= |prog|
    ensures forall k :: 0 <= k < |r| ==> r[k] != Nop
  {
    if prog == [] then []
    else (if prog[0] == Nop then [] else [prog[0]]) + Strip(prog[1..])
  }

  lemma {:induction false} StripAppend(a: seq<Instruction>, b: seq<Instruction>)
    ensures Strip(a + b) == Strip(a) + Strip(b)
  {
    if a == [] {
      assert a + b == b;
    } else {
      assert (a + b)[1..] == a[1..] + b;
      StripAppend(a[1..], b);
    }
  }

  /** Stripping is idempotent, and a program with no NOP is its own stripping. */
  lemma {:induction false} StripNoNop(prog: seq<Instruction>)
    requires forall k :: 0 <= k < |prog| ==> prog[k] != Nop
    ensures Strip(prog) == prog
  {
    if prog != [] {
      StripNoNop(prog[1..]);
    }
  }

  /** The position in Strip(prog) of the instruction at index i of prog: the
      number of instructions other than NOP before index i. */
  function Pos(prog: seq<Instruction>, i: nat): (r: nat)
    requires i <= |prog|
    ensures r <= i
  {
    if i == 0 then 0 else Pos(prog, i - 1) + (if prog[i - 1] == Nop then 0 else 1)
  }

  lemma {:induction false} PosPrefix(prog: seq<Instruction>, i: nat)
    requires i <= |prog|
    ensures Pos(prog, i) == |Strip(prog[..i])|
  {
    if i == 0 {
      assert prog[..0] == [];
    } else {
      PosPrefix(prog, i - 1);
      assert prog[..i] == prog[..i - 1] + [prog[i - 1]];
      StripAppend(prog[..i - 1], [prog[i - 1]]);
      assert [prog[i - 1]][1..] == [];
    }
  }

  lemma PosBound(prog: seq<Instruction>, i: nat)
    requires i <= |prog|
    ensures Pos(prog, i) <= |Strip(prog)|
  {
    PosPrefix(prog, i);
    assert prog == prog[..i] + prog[i..];
    StripAppend(prog[..i], prog[i..]);
  }

  lemma PosEnd(prog: seq<Instruction>)
    ensures Pos(prog, |prog|) == |Strip(prog)|
  {
    PosPrefix(prog, |prog|);
    assert prog[..|prog|] == prog;
  }

  /** An instruction at index i appears at Pos(prog, i) of the stripped program. */
  lemma PosInstruction(prog: seq<Instruction>, i: nat)
    requires i < |prog| && prog[i] != Nop
    ensures Pos(prog, i) < |Strip(prog)|
    ensures Strip(prog)[Pos(prog, i)] == prog[i]
    ensures Pos(prog, i + 1) == Pos(prog, i) + 1
  {
    PosPrefix(prog, i);
    assert prog == prog[..i] + ([prog[i]] + prog[i + 1..]);
    StripAppend(prog[..i], [prog[i]] + prog[i + 1..]);
    assert ([prog[i]] + prog[i + 1..])[1..] == prog[i + 1..];
  }
}
