/** The growable data memory (data_t and the data_* functions, the same in both
    interpreters). The conceptual tape is infinite and reads 0 everywhere it has
    not been written; the buffer only holds a prefix of it. */
module Tapes {
  import opened Instructions

  /** Memory allocation granularity (DATA_GRANULARITY). */
  const GRANULARITY: nat := 32768

  function Zeros(n: nat): (z: seq<byte>)
    ensures |z| == n && forall k :: 0 <= k < n ==> z[k] == 0
  {
    seq(n, _ => 0)
  }

  /** The value of conceptual cell dp of a buffer (data_get): cells past the
      buffer have never been written and read 0. */
  function Read(cells: seq<byte>, dp: nat): (v: byte)
    ensures dp >= |cells| ==> v == 0
  {
    if dp < |cells| then cells[dp] else 0
  }

  /** How far the buffer reaches is invisible: padding it with zero cells, as
      growing does, changes no cell's value. */
  lemma ReadPadded(cells: seq<byte>, n: nat, dp: nat)
    ensures Read(cells + Zeros(n), dp) == Read(cells, dp)
  {
  }

  /** The buffer after data_bound(dp); None when realloc fails. */
  function Bounded(cells: seq<byte>, dp: nat, reallocOk: bool): (r: Option<seq<byte>>)
    ensures r.Some? <==> dp < |cells| || reallocOk
    ensures dp < |cells| ==> r == Some(cells)
    ensures dp >= |cells| && r.Some? ==>
      |r.value| == dp + 1 + GRANULARITY &&
      r.value[..|cells|] == cells &&
      forall k :: |cells| <= k < |r.value| ==> r.value[k] == 0
    ensures r.Some? ==> dp < |r.value|
    ensures r.Some? ==> forall k: nat :: Read(r.value, k) == Read(cells, k)
  {
    if dp < |cells| then Some(cells)
    else if reallocOk then Some(cells + Zeros(dp + 1 + GRANULARITY - |cells|))
    else None
  }

  /** uint8_t arithmetic wraps around modulo 256. */
  lemma IncrementWraps(b: byte)
    ensures (b + 1) as int == (b as int + 1) % 256
  {
    if b != 0xFF {
      assert (b + 1) as int == b as int + 1;
    }
  }

  lemma DecrementWraps(b: byte)
    ensures (b - 1) as int == (b as int + 255) % 256
  {
    if b != 0 {
      assert (b - 1) as int == b as int - 1;
    }
  }

  /** The buffer after data_inc(dp). */
  function Incremented(cells: seq<byte>, dp: nat, reallocOk: bool): (r: Option<seq<byte>>)
    ensures r.Some? <==> dp < |cells| || reallocOk
    ensures r.Some? ==> |r.value| == |Bounded(cells, dp, reallocOk).value|
    ensures r.Some? ==> Read(r.value, dp) as int == (Read(cells, dp) as int + 1) % 256
    ensures r.Some? ==> forall k: nat :: k != dp ==> Read(r.value, k) == Read(cells, k)
  {
    match Bounded(cells, dp, reallocOk)
    case None => None
    case Some(c) =>
      IncrementWraps(c[dp]);
      Some(c[dp := c[dp] + 1])
  }

  /** The buffer after data_dec(dp). */
  function Decremented(cells: seq<byte>, dp: nat, reallocOk: bool): (r: Option<seq<byte>>)
    ensures r.Some? <==> dp < |cells| || reallocOk
    ensures r.Some? ==> |r.value| == |Bounded(cells, dp, reallocOk).value|
    ensures r.Some? ==> Read(r.value, dp) as int == (Read(cells, dp) as int + 255) % 256
    ensures r.Some? ==> forall k: nat :: k != dp ==> Read(r.value, k) == Read(cells, k)
  {
    match Bounded(cells, dp, reallocOk)
    case None => None
    case Some(c) =>
      DecrementWraps(c[dp]);
      Some(c[dp := c[dp] - 1])
  }

  /** The buffer after data_set(dp, val). */
  function Assigned(cells: seq<byte>, dp: nat, val: byte, reallocOk: bool): (r: Option<seq<byte>>)
    ensures r.Some? <==> dp < |cells| || reallocOk
    ensures r.Some? ==> |r.value| == |Bounded(cells, dp, reallocOk).value|
    ensures r.Some? ==> Read(r.value, dp) == val
    ensures r.Some? ==> forall k: nat :: k != dp ==> Read(r.value, k) == Read(cells, k)
  {
    match Bounded(cells, dp, reallocOk)
    case None => None
    case Some(c) => Some(c[dp := val])
  }

  /** data_t: a buffer `data` of `size` cells, updated in place. */
  class Tape {
    var data: array<byte>
    var size: nat

    ghost predicate Valid()
      reads this
    {
      data.Length == size
    }

    /** The buffer's contents. */
    function Cells(): (s: seq<byte>)
      reads this, data
      requires Valid()
      ensures |s| == size
    {
      data[..]
    }

    /** data_init: an empty tape, nothing allocated. */
    constructor ()
      ensures Valid() && fresh(data)
      ensures Cells() == []
    {
      data := new byte[0];
      size := 0;
    }

    /** data_bound: make cell dp addressable, growing to dp + 1 + GRANULARITY
        cells when it is not; reallocOk says whether realloc succeeds. */
    method Bound(dp: nat, reallocOk: bool) returns (ok: bool)
      requires Valid()
      modifies this
      ensures Valid() && (data == old(data) || fresh(data))
      ensures Bounded(old(Cells()), dp, reallocOk) == if ok then Some(Cells()) else None
      ensures !ok ==> Cells() == old(Cells())
    {
      if dp >= size {
        if !reallocOk {
          return false;
        }
        var newSize := dp + 1 + GRANULARITY;
        var grown := new byte[newSize];
        // realloc: the old cells move to the new buffer
        var i := 0;
        while i < size
          modifies grown
          invariant i <= size
          invariant forall k :: 0 <= k < i ==> grown[k] == data[k]
        {
          grown[i] := data[i];
          i := i + 1;
        }
        // memset: the new region is zero
        while i < newSize
          modifies grown
          invariant size <= i <= newSize
          invariant forall k :: 0 <= k < size ==> grown[k] == data[k]
          invariant forall k :: size <= k < i ==> grown[k] == 0
        {
          grown[i] := 0;
          i := i + 1;
        }
        assert grown[..] == data[..] + Zeros(newSize - size);
        data, size := grown, newSize;
      }
      return true;
    }

    /** data_get: the value of cell dp, 0 beyond the buffer; never grows it. */
    method Get(dp: nat) returns (v: byte)
      requires Valid()
      ensures v == Read(Cells(), dp)
      ensures dp >= size ==> v == 0
    {
      if dp >= size {
        return 0;
      }
      return data[dp];
    }

    /** data_inc */
    method Inc(dp: nat, reallocOk: bool) returns (ok: bool)
      requires Valid()
      modifies this, data
      ensures Valid() && (data == old(data) || fresh(data))
      ensures Incremented(old(Cells()), dp, reallocOk) == if ok then Some(Cells()) else None
      ensures !ok ==> Cells() == old(Cells())
    {
      ok := Bound(dp, reallocOk);
      if !ok {
        return;
      }
      data[dp] := data[dp] + 1;
    }

    /** data_dec */
    method Dec(dp: nat, reallocOk: bool) returns (ok: bool)
      requires Valid()
      modifies this, data
      ensures Valid() && (data == old(data) || fresh(data))
      ensures Decremented(old(Cells()), dp, reallocOk) == if ok then Some(Cells()) else None
      ensures !ok ==> Cells() == old(Cells())
    {
      ok := Bound(dp, reallocOk);
      if !ok {
        return;
      }
      data[dp] := data[dp] - 1;
    }

    /** data_set */
    method Set(dp: nat, val: byte, reallocOk: bool) returns (ok: bool)
      requires Valid()
      modifies this, data
      ensures Valid() && (data == old(data) || fresh(data))
      ensures Assigned(old(Cells()), dp, val, reallocOk) == if ok then Some(Cells()) else None
      ensures !ok ==> Cells() == old(Cells())
    {
      ok := Bound(dp, reallocOk);
      if !ok {
        return;
      }
      data[dp] := val;
    }
  }
}
