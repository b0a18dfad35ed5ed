/** Brainfuck syntax: one instruction per byte, the eight characters
    > < + - . , [ ] and everything else a comment. */
module Brainfuck {
  import opened Instructions
  import Tapes
  import Engine

  // The eight instruction characters, by their ASCII codes.
  const RIGHT: byte := 0x3E  // '>'
  const LEFT: byte := 0x3C  // '<'
  const PLUS: byte := 0x2B  // '+'
  const MINUS: byte := 0x2D  // '-'
  const DOT: byte := 0x2E  // '.'
  const COMMA: byte := 0x2C  // ','
  const OPEN: byte := 0x5B  // '['
  const CLOSE: byte := 0x5D  // ']'

  /** The eight instruction characters. */
  const Alphabet: set<byte> :=
    {RIGHT, LEFT, PLUS, MINUS, DOT, COMMA, OPEN, CLOSE}

  /** opcode_decode: the instruction a byte stands for. */
  function Decode(b: byte): (r: Instruction)
    ensures r == Nop <==> b !in Alphabet
    ensures r != Nop ==> Spell(r) == [b]
  {
    if b == RIGHT then DpInc
    else if b == LEFT then DpDec
    else if b == PLUS then ValInc
    else if b == MINUS then ValDec
    else if b == DOT then ValOutput
    else if b == COMMA then ValAccept
    else if b == OPEN then JmpForward
    else if b == CLOSE then JmpBack
    else Nop
  }

  /** The Brainfuck text of an instruction, as the ig2bf encoder writes it;
      NOP is written as nothing. */
  function Spell(i: Instruction): (r: seq<byte>)
    ensures i == Nop ==> r == []
    ensures i != Nop ==> |r| == 1 && r[0] in Alphabet
  {
    match i
    case DpInc => [RIGHT]
    case DpDec => [LEFT]
    case ValInc => [PLUS]
    case ValDec => [MINUS]
    case ValOutput => [DOT]
    case ValAccept => [COMMA]
    case JmpForward => [OPEN]
    case JmpBack => [CLOSE]
    case Nop => []
  }

  /** Spelling an instruction and decoding the character gives it back. */
  lemma SpellDecodes(i: Instruction)
    requires i != Nop
    ensures Decode(Spell(i)[0]) == i
  {
  }

  /** The program a source text stands for: one instruction per byte. */
  function DecodeProgram(source: seq<byte>): (r: seq<Instruction>)
    ensures |r| == |source|
  {
    seq(|source|, k requires 0 <= k < |source| => Decode(source[k]))
  }

  lemma DecodeProgramAppend(a: seq<byte>, b: seq<byte>)
    ensures DecodeProgram(a + b) == DecodeProgram(a) + DecodeProgram(b)
  {
  }

  /** The source with its comments removed. */
  function Clean(source: seq<byte>): (r: seq<byte>)
    ensures |r| <= |source|
    ensures forall k :: 0 <= k < |r| ==> r[k] in Alphabet
  {
    if source == [] then []
    else (if source[0] in Alphabet then [source[0]] else []) + Clean(source[1..])
  }

  /** Removing the comments removes exactly the NOPs of the decoded program. */
  lemma {:induction false} CleanDecodes(source: seq<byte>)
    ensures DecodeProgram(Clean(source)) == Strip(DecodeProgram(source))
  {
    if source != [] {
      CleanDecodes(source[1..]);
      assert source == [source[0]] + source[1..];
      DecodeProgramAppend([source[0]], source[1..]);
      DecodeProgramAppend(if source[0] in Alphabet then [source[0]] else [], Clean(source[1..]));
      assert DecodeProgram(source)[1..] == DecodeProgram(source[1..]);
    }
  }

  /** A text made of instruction characters only has nothing to clean. */
  lemma {:induction false} CleanKeeps(source: seq<byte>)
    requires forall k :: 0 <= k < |source| ==> source[k] in Alphabet
    ensures Clean(source) == source
  {
    if source != [] {
      CleanKeeps(source[1..]);
    }
  }

  /** The Brainfuck interpreter: the source decoded byte by byte and run by
      main's loop. */
  method Interpret(source: seq<byte>, input: seq<byte>, alloc: nat -> bool, fuel: nat) returns (r: Engine.RunResult)
    ensures r == Engine.Run(DecodeProgram(source), Engine.Initial(input), alloc, fuel)
  {
    r := Engine.Execute(DecodeProgram(source), input, alloc, fuel);
  }
}
