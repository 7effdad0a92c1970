/**
  Two defects of the TGA reader, each as the code is written next to the
  corrected definition that modules TgaSpec and TgaLoader use.

  1. `tga_load_compressed_true_color` writes every packet whole: a final
     packet longer than the pixels still missing writes past the end of the
     `pixelcount`-pixel buffer.
  2. `tga_load_compressed_paletted` uses every index as it comes: one naming
     no entry of the colour map reads past the colour map.
*/
module TgaFindings {
  import opened Bytes
  import opened Errors
  import opened TgaSpec

  // ---------------------------------------------------------------------
  // 1. Run-length packets

  /**
    The packet loop as written: while fewer than `n` pixels are out, read a
    packet and emit all of its pixels. No packet is refused (a count is at
    most 128), so the last one may carry the output past `n`.
  */
  function RleAsWritten(data: seq<byte>, off: nat, ps: nat, n: nat): (r: Result<seq<nat>>)
    requires off <= |data|
    ensures r.Ok? ==> |r.value| >= n
    ensures r.Err? ==> r.error == Underflow
    decreases n
  {
    if n == 0 then Ok([])
    else
      var p := ReadPacket(data, off, ps, 128);
      if p.Err? then Err(p.error)
      else if |p.value.sources| >= n then Ok(p.value.sources)
      else Prepend(p.value.sources, RleAsWritten(data, p.value.next, ps, n - |p.value.sources|))
  }

  /**
    A 1x1 image whose only packet is a run of two (`0x81`) comes out with two
    pixels as written, one more than its buffer holds; the corrected decoder
    rejects it.
  */
  lemma RleOverrun()
    ensures var r := RleAsWritten([0x81, 1, 2, 3], 0, 3, 1);
      r.Ok? && |r.value| == 2
    ensures Rle([0x81, 1, 2, 3], 0, 3, 1) == Err(Rejected)
  {
    var p := ReadPacket([0x81, 1, 2, 3], 0, 3, 128);
    assert p.Ok? && |p.value.sources| == 2;
    assert ReadPacket([0x81, 1, 2, 3], 0, 3, 1) == Err(Rejected);
  }

  /**
    The correction changes nothing else: whenever the stream as written
    yields exactly `n` pixels, the corrected decoder yields the same ones.
  */
  lemma {:induction false} RleAgrees(data: seq<byte>, off: nat, ps: nat, n: nat)
    requires off <= |data|
    requires var r := RleAsWritten(data, off, ps, n); r.Ok? && |r.value| == n
    ensures Rle(data, off, ps, n) == RleAsWritten(data, off, ps, n)
    decreases n
  {
    if n > 0 {
      var p := ReadPacket(data, off, ps, 128).value;
      assert ReadPacket(data, off, ps, n) == Ok(p);
      if |p.sources| < n {
        var rest := RleAsWritten(data, p.next, ps, n - |p.sources|);
        assert rest.Ok? && |rest.value| == n - |p.sources|;
        RleAgrees(data, p.next, ps, n - |p.sources|);
      } else {
        assert Rle(data, p.next, ps, 0) == Ok([]);
        PrependDone(p.sources);
      }
    }
  }

  // ---------------------------------------------------------------------
  // 2. Colour-map indices

  /** The index loop as written: `n` indices of `width` bytes, none checked. */
  function PalettedAsWritten(data: seq<byte>, off: nat, width: nat, n: nat): (r: Result<seq<nat>>)
    requires off <= |data| && (width == 1 || width == 2)
    ensures r.Ok? ==> |r.value| == n
    ensures r.Err? ==> r.error == Underflow
    decreases n
  {
    if n == 0 then Ok([])
    else if |data| - off < width then Err(Underflow)
    else Prepend([IndexAt(data, off, width)], PalettedAsWritten(data, off + width, width, n - 1))
  }

  /**
    One 8-bit index 5 into a one-entry colour map of 3-byte entries: as
    written the entry is read at byte 15 of a 3-byte colour map; the
    corrected decoder rejects it.
  */
  lemma IndexPastColormap()
    ensures PalettedAsWritten([5], 0, 1, 1) == Ok([5])
    ensures IndexOffset(0, 5, 3) + 3 > IndexOffset(0, 1, 3)
    ensures Paletted([5], 0, 1, 1, 1) == Err(Rejected)
  {
    assert IndexAt([5], 0, 1) == 5;
    PrependDone([5]);
  }

  /**
    The correction changes nothing else: when every index as written names
    an entry, the corrected decoder yields the same indices, and it rejects
    exactly the streams with an index that does not.
  */
  lemma {:induction false} PalettedAgrees(data: seq<byte>, off: nat, width: nat, entries: nat, n: nat)
    requires off <= |data| && (width == 1 || width == 2)
    requires PalettedAsWritten(data, off, width, n).Ok?
    ensures Paletted(data, off, width, entries, n).Ok? <==>
      (forall i :: 0 <= i < n ==> PalettedAsWritten(data, off, width, n).value[i] < entries)
    ensures Paletted(data, off, width, entries, n).Ok? ==>
      Paletted(data, off, width, entries, n) == PalettedAsWritten(data, off, width, n)
    decreases n
  {
    if n > 0 {
      var w := PalettedAsWritten(data, off, width, n).value;
      var idx := IndexAt(data, off, width);
      var rest := PalettedAsWritten(data, off + width, width, n - 1);
      assert w == [idx] + rest.value;
      PalettedAgrees(data, off + width, width, entries, n - 1);
      if idx >= entries {
        assert w[0] >= entries;
      } else {
        forall i | 0 < i < n
          ensures w[i] == rest.value[i - 1]
        {
        }
        if !Paletted(data, off + width, width, entries, n - 1).Ok? {
          var j :| 0 <= j < n - 1 && rest.value[j] >= entries;
          assert w[j + 1] >= entries;
        }
      }
    }
  }
}
