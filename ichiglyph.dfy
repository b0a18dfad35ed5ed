/** Ichiglyph syntax: one instruction per aligned pair of bytes, each pair
    made of the glyphs l, I and 1; every other pair, and "11", is a NOP. */
module Ichiglyph {
  import opened Instructions
  import Engine

  // The three glyphs, by their ASCII codes.
  const ELL: byte := 0x6C  // 'l'
  const EYE: byte := 0x49  // 'I'
  const ONE: byte := 0x31  // '1'

  /** The three glyphs. */
  const Glyphs: set<byte> := {ELL, EYE, ONE}

  /** opcode_decode: the instruction a pair of bytes stands for. */
  function Decode(a: byte, b: byte): (r: Instruction)
    ensures r != Nop <==> a in Glyphs && b in Glyphs && !(a == ONE && b == ONE)
    ensures r != Nop ==> Spell(r) == [a, b]
  {
    if a == ELL then
      (if b == ELL then DpInc
       else if b == EYE then DpDec
       else if b == ONE then JmpForward
       else Nop)
    else if a == EYE then
      (if b == ELL then ValInc
       else if b == EYE then ValDec
       else if b == ONE then JmpBack
       else Nop)
    else if a == ONE then
      (if b == ELL then ValOutput
       else if b == EYE then ValAccept
       else Nop)
    else Nop
  }

  /** The Ichiglyph text of an instruction, as the bf2ig encoder writes it;
      NOP is written as nothing. */
  function Spell(i: Instruction): (r: seq<byte>)
    ensures i == Nop ==> r == []
    ensures i != Nop ==> |r| == 2 && r[0] in Glyphs && r[1] in Glyphs
  {
    match i
    case DpInc => [ELL, ELL]
    case DpDec => [ELL, EYE]
    case ValInc => [EYE, ELL]
    case ValDec => [EYE, EYE]
    case ValOutput => [ONE, ELL]
    case ValAccept => [ONE, EYE]
    case JmpForward => [ELL, ONE]
    case JmpBack => [EYE, ONE]
    case Nop => []
  }

  /** Spelling an instruction and decoding the pair gives it back; so distinct
      instructions are spelled differently. */
  lemma SpellDecodes(i: Instruction)
    requires i != Nop
    ensures Decode(Spell(i)[0], Spell(i)[1]) == i
  {
  }

  lemma SpellInjective(i: Instruction, j: Instruction)
    requires Spell(i) == Spell(j)
    ensures i == j
  {
    if i != Nop && j != Nop {
      SpellDecodes(i);
      SpellDecodes(j);
    }
  }

  /** The program a source text stands for: |source| / 2 units of two bytes;
      a trailing odd byte is not part of any unit. */
  function DecodeProgram(source: seq<byte>): (r: seq<Instruction>)
    ensures |r| == |source| / 2
  {
    seq(|source| / 2, k requires 0 <= k < |source| / 2 => Decode(source[2 * k], source[2 * k + 1]))
  }

  lemma DecodeProgramFirst(source: seq<byte>)
    requires |source| >= 2
    ensures DecodeProgram(source) == [Decode(source[0], source[1])] + DecodeProgram(source[2..])
  {
    var r := DecodeProgram(source);
    var t := [Decode(source[0], source[1])] + DecodeProgram(source[2..]);
    forall k | 0 <= k < |r|
      ensures r[k] == t[k]
    {
      if k > 0 {
        assert source[2..][2 * (k - 1)] == source[2 * k];
        assert source[2..][2 * (k - 1) + 1] == source[2 * k + 1];
      }
    }
  }

  /** Decoding a text of whole units and what follows is decoding each. */
  lemma {:induction false} DecodeProgramAppend(a: seq<byte>, b: seq<byte>)
    requires |a| % 2 == 0
    ensures DecodeProgram(a + b) == DecodeProgram(a) + DecodeProgram(b)
    decreases |a|
  {
    if a == [] {
      assert a + b == b;
    } else {
      DecodeProgramFirst(a);
      DecodeProgramFirst(a + b);
      assert (a + b)[2..] == a[2..] + b;
      DecodeProgramAppend(a[2..], b);
    }
  }

  /** A trailing odd byte is never decoded. */
  lemma DecodeIgnoresOddByte(source: seq<byte>, x: byte)
    requires |source| % 2 == 0
    ensures DecodeProgram(source + [x]) == DecodeProgram(source)
  {
    DecodeProgramAppend(source, [x]);
  }

  /** The Ichiglyph interpreter: the source decoded pair by pair and run by
      main's loop. */
  method Interpret(source: seq<byte>, input: seq<byte>, alloc: nat -> bool, fuel: nat) returns (r: Engine.RunResult)
    ensures r == Engine.Run(DecodeProgram(source), Engine.Initial(input), alloc, fuel)
  {
    r := Engine.Execute(DecodeProgram(source), input, alloc, fuel);
  }
}
