/** The Ichiglyph to Brainfuck transpiler: every aligned pair of the source is
    decoded and its instruction written as one Brainfuck character; NOP pairs
    and a trailing odd byte write nothing. */
module Ig2Bf {
  import opened Instructions
  import opened Engine
  import NopErasure
  import Brainfuck
  import Ichiglyph

  /** The text the transpiler writes for an Ichiglyph source. */
  function Translate(source: seq<byte>): (r: seq<byte>)
    ensures |r| <= |source| / 2
    ensures forall k :: 0 <= k < |r| ==> r[k] in Brainfuck.Alphabet
    decreases |source|
  {
    if |source| < 2 then []
    else Brainfuck.Spell(Ichiglyph.Decode(source[0], source[1])) + Translate(source[2..])
  }

  /** main's loop: fetch, decode and re-encode one unit at a time. */
  method TranslateLoop(source: seq<byte>) returns (out: seq<byte>)
    ensures out == Translate(source)
  {
    var units := |source| / 2;
    var ip := 0;
    out := [];
    while ip < units
      invariant ip <= units
      invariant out == Translate(source[..2 * ip])
    {
      var instruction := Ichiglyph.Decode(source[2 * ip], source[2 * ip + 1]);
      TranslateSnoc(source, ip);
      out := out + Brainfuck.Spell(instruction);
      ip := ip + 1;
    }
    TranslateTail(source, units);
  }

  lemma TranslateSnoc(source: seq<byte>, ip: nat)
    requires 2 * ip + 2 <= |source|
    ensures Translate(source[..2 * ip + 2]) ==
            Translate(source[..2 * ip]) + Brainfuck.Spell(Ichiglyph.Decode(source[2 * ip], source[2 * ip + 1]))
  {
    var unit := [source[2 * ip], source[2 * ip + 1]];
    assert source[..2 * ip + 2] == source[..2 * ip] + unit;
    TranslateAppend(source[..2 * ip], unit);
    assert unit[2..] == [];
  }

  /** Only whole units are translated. */
  lemma TranslateTail(source: seq<byte>, units: nat)
    requires 2 * units <= |source| < 2 * units + 2
    ensures Translate(source[..2 * units]) == Translate(source)
  {
    assert source[..2 * units] + source[2 * units..] == source;
    TranslateShortTail(source[..2 * units], source[2 * units..], units);
  }

  lemma TranslateShortTail(whole: seq<byte>, rest: seq<byte>, units: nat)
    requires |whole| == 2 * units && |rest| < 2
    ensures Translate(whole + rest) == Translate(whole)
  {
    assert |whole| % 2 == 0;
    TranslateAppend(whole, rest);
    assert Translate(rest) == [];
  }

  /** The output of a source of whole units followed by more is the output of
      each. */
  lemma {:induction false} TranslateAppend(a: seq<byte>, b: seq<byte>)
    requires |a| % 2 == 0
    ensures Translate(a + b) == Translate(a) + Translate(b)
    decreases |a|
  {
    if a != [] {
      assert (a + b)[0] == a[0] && (a + b)[1] == a[1];
      assert (a + b)[2..] == a[2..] + b;
      TranslateAppend(a[2..], b);
    } else {
      assert a + b == b;
    }
  }

  /** The output, read back as Brainfuck, is the Ichiglyph program without its
      NOPs; in particular it has one character per instruction. */
  lemma {:induction false} TranslateDecodes(source: seq<byte>)
    ensures Brainfuck.DecodeProgram(Translate(source)) == Strip(Ichiglyph.DecodeProgram(source))
    ensures |Translate(source)| == |Strip(Ichiglyph.DecodeProgram(source))|
    decreases |source|
  {
    if |source| >= 2 {
      var i := Ichiglyph.Decode(source[0], source[1]);
      TranslateDecodes(source[2..]);
      Ichiglyph.DecodeProgramFirst(source);
      StripAppend([i], Ichiglyph.DecodeProgram(source[2..]));
      Brainfuck.DecodeProgramAppend(Brainfuck.Spell(i), Translate(source[2..]));
      SpellDecodesStripped(i);
    } else {
      assert Ichiglyph.DecodeProgram(source) == [];
    }
  }

  /** One instruction written as Brainfuck reads back as itself, a NOP as nothing. */
  lemma SpellDecodesStripped(i: Instruction)
    ensures Brainfuck.DecodeProgram(Brainfuck.Spell(i)) == Strip([i])
  {
    assert [i][1..] == [];
    if i != Nop {
      Brainfuck.SpellDecodes(i);
    }
  }

  /** A trailing odd byte does not change the output. */
  lemma TranslateIgnoresOddByte(source: seq<byte>, x: byte)
    requires |source| % 2 == 0
    ensures Translate(source + [x]) == Translate(source)
  {
    TranslateAppend(source, [x]);
  }

  /** Running an Ichiglyph program and running its translation as Brainfuck
      end alike: same outcome, output, tape, data pointer and unread input.
      The translation needs no more fuel; the Ichiglyph program needs at most
      Allowance(units, fuel), that is (fuel + 1) * (units + 1). */
  lemma RunsAgree(source: seq<byte>, input: seq<byte>, alloc: nat -> bool, fuel: nat)
    ensures var ig := Run(Ichiglyph.DecodeProgram(source), Initial(input), alloc, fuel);
      var bf := Brainfuck.DecodeProgram(Translate(source));
      ig.Done? ==> Run(bf, Initial(input), alloc, fuel) == Done(ig.outcome, ig.final.(ip := |bf|))
    ensures var bf := Run(Brainfuck.DecodeProgram(Translate(source)), Initial(input), alloc, fuel);
      var ig := Ichiglyph.DecodeProgram(source);
      bf.Done? ==>
        Run(ig, Initial(input), alloc, NopErasure.Allowance(|ig|, fuel)) == Done(bf.outcome, bf.final.(ip := |ig|))
  {
    TranslateDecodes(source);
    NopErasure.NopsInvisible(Ichiglyph.DecodeProgram(source), input, alloc, fuel);
  }
}
