/** The Brainfuck to Ichiglyph transpiler: every byte of the source is decoded
    and its instruction written as one Ichiglyph pair; comments write nothing. */
module Bf2Ig {
  import opened Instructions
  import opened Engine
  import NopErasure
  import Brainfuck
  import Ichiglyph
  import Ig2Bf

  /** The text the transpiler writes for a Brainfuck source. */
  function Translate(source: seq<byte>): (r: seq<byte>)
    ensures |r| % 2 == 0 && |r| <= 2 * |source|
    ensures forall k :: 0 <= k < |r| ==> r[k] in Ichiglyph.Glyphs
  {
    if source == [] then []
    else Ichiglyph.Spell(Brainfuck.Decode(source[0])) + Translate(source[1..])
  }

  /** main's loop: fetch, decode and re-encode one byte at a time. */
  method TranslateLoop(source: seq<byte>) returns (out: seq<byte>)
    ensures out == Translate(source)
  {
    var ip := 0;
    out := [];
    while ip < |source|
      invariant ip <= |source|
      invariant out == Translate(source[..ip])
    {
      var instruction := Brainfuck.Decode(source[ip]);
      TranslateSnoc(source, ip);
      out := out + Ichiglyph.Spell(instruction);
      ip := ip + 1;
    }
    assert source[..ip] == source;
  }

  lemma TranslateSnoc(source: seq<byte>, ip: nat)
    requires ip < |source|
    ensures Translate(source[..ip + 1]) == Translate(source[..ip]) + Ichiglyph.Spell(Brainfuck.Decode(source[ip]))
  {
    assert source[..ip + 1] == source[..ip] + [source[ip]];
    TranslateAppend(source[..ip], [source[ip]]);
    assert [source[ip]][1..] == [];
  }

  lemma {:induction false} TranslateAppend(a: seq<byte>, b: seq<byte>)
    ensures Translate(a + b) == Translate(a) + Translate(b)
  {
    if a != [] {
      assert (a + b)[1..] == a[1..] + b;
      TranslateAppend(a[1..], b);
    } else {
      assert a + b == b;
    }
  }

  /** The output, read back as Ichiglyph, is the Brainfuck program without its
      comments; it has two bytes per instruction. */
  lemma {:induction false} TranslateDecodes(source: seq<byte>)
    ensures Ichiglyph.DecodeProgram(Translate(source)) == Strip(Brainfuck.DecodeProgram(source))
    ensures |Translate(source)| == 2 * |Strip(Brainfuck.DecodeProgram(source))|
  {
    if source != [] {
      var i := Brainfuck.Decode(source[0]);
      TranslateDecodes(source[1..]);
      assert source == [source[0]] + source[1..];
      Brainfuck.DecodeProgramAppend([source[0]], source[1..]);
      StripAppend([i], Brainfuck.DecodeProgram(source[1..]));
      assert [i][1..] == [];
      Ichiglyph.DecodeProgramAppend(Ichiglyph.Spell(i), Translate(source[1..]));
      if i != Nop {
        Ichiglyph.DecodeProgramFirst(Ichiglyph.Spell(i));
        Ichiglyph.SpellDecodes(i);
      }
    }
  }

  /** Comments do not reach the output. */
  lemma {:induction false} TranslateIgnoresComments(source: seq<byte>)
    ensures Translate(Brainfuck.Clean(source)) == Translate(source)
  {
    if source != [] {
      TranslateIgnoresComments(source[1..]);
      var head := if source[0] in Brainfuck.Alphabet then [source[0]] else [];
      TranslateAppend(head, Brainfuck.Clean(source[1..]));
      if head != [] {
        assert head[1..] == [];
      }
    }
  }

  /** Translating to Ichiglyph and back gives the Brainfuck source without its
      comments. */
  lemma {:induction false} RoundTrip(source: seq<byte>)
    ensures Ig2Bf.Translate(Translate(source)) == Brainfuck.Clean(source)
  {
    if source != [] {
      var i := Brainfuck.Decode(source[0]);
      RoundTrip(source[1..]);
      Ig2Bf.TranslateAppend(Ichiglyph.Spell(i), Translate(source[1..]));
      if i != Nop {
        Ichiglyph.SpellDecodes(i);
        assert Ichiglyph.Spell(i)[2..] == [];
      }
    }
  }

  /** A second round trip changes nothing more. */
  lemma RoundTripStable(source: seq<byte>)
    ensures Ig2Bf.Translate(Translate(Ig2Bf.Translate(Translate(source)))) == Ig2Bf.Translate(Translate(source))
  {
    RoundTrip(source);
    RoundTrip(Brainfuck.Clean(source));
    Brainfuck.CleanKeeps(Brainfuck.Clean(source));
  }

  /** Running a Brainfuck program and running its translation as Ichiglyph end
      alike. */
  lemma RunsAgree(source: seq<byte>, input: seq<byte>, alloc: nat -> bool, fuel: nat)
    ensures var bf := Run(Brainfuck.DecodeProgram(source), Initial(input), alloc, fuel);
      var ig := Ichiglyph.DecodeProgram(Translate(source));
      bf.Done? ==> Run(ig, Initial(input), alloc, fuel) == Done(bf.outcome, bf.final.(ip := |ig|))
    ensures var ig := Run(Ichiglyph.DecodeProgram(Translate(source)), Initial(input), alloc, fuel);
      var bf := Brainfuck.DecodeProgram(source);
      ig.Done? ==>
        Run(bf, Initial(input), alloc, NopErasure.Allowance(|bf|, fuel)) == Done(ig.outcome, ig.final.(ip := |bf|))
  {
    TranslateDecodes(source);
    NopErasure.NopsInvisible(Brainfuck.DecodeProgram(source), input, alloc, fuel);
  }
}
