/**
  What `tga_load_memory` computes, stated as functions of the input bytes.
  The imperative reader in TgaLoader is proved to agree with `TgaDecode`.

  The colour-mapped and run-length readers are described in two layers:
  first which bytes each output pixel is read from (a sequence of byte
  offsets, or of colour-map indices), then the pixels themselves, each the
  cast of the source pixel stored at its offset.

  Two defects of the source are corrected here (see the Findings section of
  the README and module TgaFindings): a run-length packet that would write
  past the `width*height` pixels of the output is rejected, and a colour-map
  index whose entry lies outside the declared colour map is rejected.
*/
module TgaSpec {
  import opened Bytes
  import opened Errors
  import opened Pixels
  import opened TgaHeader

  /** The three outputs of a successful `tga_load_memory`. */
  datatype TgaImage = TgaImage(width: nat, height: nat, bpp: nat, pixels: seq<Pixel>)

  /** Prefix `p` to a successful result; a failure passes through. */
  function Prepend<T>(p: seq<T>, r: Result<seq<T>>): (s: Result<seq<T>>)
    ensures s.Ok? == r.Ok? && (r.Err? ==> s == r)
    ensures r.Ok? ==> s.value == p + r.value
  {
    if r.Ok? then Ok(p + r.value) else r
  }

  lemma {:induction false} PrependNil<T>(r: Result<seq<T>>)
    ensures Prepend([], r) == r
  {
    if r.Ok? {
      assert [] + r.value == r.value;
    }
  }

  lemma {:induction false} PrependDone<T>(p: seq<T>)
    ensures Prepend(p, Ok([])) == Ok(p)
  {
    assert p + [] == p;
  }

  lemma {:induction false} PrependPrepend<T>(p: seq<T>, q: seq<T>, r: Result<seq<T>>)
    ensures Prepend(p, Prepend(q, r)) == Prepend(p + q, r)
  {
    if r.Ok? {
      assert p + (q + r.value) == (p + q) + r.value;
    }
  }

  /** Two accounts of the same decode, one the continuation of the other, compose. */
  lemma {:induction false} PrependChain<T>(whole: Result<seq<T>>, done: seq<T>, r: Result<seq<T>>, p: seq<T>, rest: Result<seq<T>>, done': seq<T>)
    requires whole == Prepend(done, r) && r == Prepend(p, rest) && done' == done + p
    ensures whole == Prepend(done', rest)
  {
    PrependPrepend(done, p, rest);
  }

  // ---------------------------------------------------------------------
  // Reading pixels at given offsets

  /** `*reinterpret_cast<const pixelfrom*>(bytes + pos)`: the pixel stored at `pos`. */
  function StoredAt(bytes: seq<byte>, pos: nat, src: Layout): Pixel
    requires pos + src.Size() <= |bytes|
  {
    FromBytes(src, bytes[pos..pos + src.Size()])
  }

  /** Every offset leaves room for a whole pixel of `ps` bytes below `len`. */
  predicate Within(offsets: seq<nat>, ps: nat, len: nat) {
    forall i :: 0 <= i < |offsets| ==> offsets[i] + ps <= len
  }

  /** The pixels stored at each of `offsets`. */
  function Stored(bytes: seq<byte>, offsets: seq<nat>, src: Layout): (s: seq<Pixel>)
    requires Within(offsets, src.Size(), |bytes|)
    ensures |s| == |offsets| && AllOf(s, src)
  {
    seq(|offsets|, i requires 0 <= i < |offsets| => StoredAt(bytes, offsets[i], src))
  }

  /** `pxto->from(...)` for the pixel stored at each of `offsets`, in order. */
  function Render(bytes: seq<byte>, offsets: seq<nat>, src: Layout, to: Layout): (s: seq<Pixel>)
    requires Within(offsets, src.Size(), |bytes|)
    ensures |s| == |offsets| && AllOf(s, to)
  {
    seq(|offsets|, i requires 0 <= i < |offsets| => PixelCast(to, StoredAt(bytes, offsets[i], src)))
  }

  /** Rendering one more offset appends one more pixel. */
  lemma {:induction false} RenderSnoc(bytes: seq<byte>, offsets: seq<nat>, pos: nat, src: Layout, to: Layout)
    requires Within(offsets, src.Size(), |bytes|) && pos + src.Size() <= |bytes|
    ensures Within(offsets + [pos], src.Size(), |bytes|)
    ensures Render(bytes, offsets + [pos], src, to)
         == Render(bytes, offsets, src, to) + [PixelCast(to, StoredAt(bytes, pos, src))]
  {
    var s := offsets + [pos];
    assert Within(s, src.Size(), |bytes|) by {
      forall i | 0 <= i < |s|
        ensures s[i] + src.Size() <= |bytes|
      {
        if i < |offsets| {
          assert s[i] == offsets[i];
        }
      }
    }
  }

  /** Rendering two runs of offsets one after the other renders each in turn. */
  lemma {:induction false} RenderAppend(bytes: seq<byte>, a: seq<nat>, b: seq<nat>, src: Layout, to: Layout)
    requires Within(a, src.Size(), |bytes|) && Within(b, src.Size(), |bytes|)
    ensures Within(a + b, src.Size(), |bytes|)
    ensures Render(bytes, a + b, src, to) == Render(bytes, a, src, to) + Render(bytes, b, src, to)
  {
    var s := a + b;
    assert Within(s, src.Size(), |bytes|) by {
      forall i | 0 <= i < |s|
        ensures s[i] + src.Size() <= |bytes|
      {
        if i < |a| {
          assert s[i] == a[i];
        } else {
          assert s[i] == b[i - |a|];
        }
      }
    }
  }

  /** Pixel `i` of a rendering is the cast of the pixel stored at offset `i`. */
  lemma {:induction false} RenderAt(bytes: seq<byte>, offsets: seq<nat>, src: Layout, to: Layout, i: nat)
    requires Within(offsets, src.Size(), |bytes|) && i < |offsets|
    ensures offsets[i] + src.Size() <= |bytes|
    ensures Render(bytes, offsets, src, to)[i] == PixelCast(to, StoredAt(bytes, offsets[i], src))
  {
  }

  /** Reading at `pos` in the suffix from `off` on reads at `off + pos` in the whole. */
  lemma {:induction false} StoredAtSuffix(bytes: seq<byte>, off: nat, pos: nat, src: Layout)
    requires off + pos + src.Size() <= |bytes|
    ensures StoredAt(bytes[off..], pos, src) == StoredAt(bytes, off + pos, src)
  {
    assert bytes[off..][pos..pos + src.Size()] == bytes[off + pos..off + pos + src.Size()];
  }

  /** `(i + 1) * k == i * k + k` */
  lemma {:induction false} MulSucc(i: nat, k: nat)
    ensures (i + 1) * k == i * k + k
  {
  }

  /** Where the `i`-th of a run of `width`-byte items starting at `off` starts. */
  function IndexOffset(off: nat, i: nat, width: nat): nat { off + i * width }

  lemma {:induction false} IndexOffsetShift(off: nat, i: nat, width: nat)
    ensures IndexOffset(off + width, i, width) == IndexOffset(off, i + 1, width)
  {
    MulSucc(i, width);
  }

  lemma {:induction false} IndexOffsetBound(off: nat, i: nat, n: nat, width: nat)
    requires i < n
    ensures IndexOffset(off, i, width) + width <= IndexOffset(off, n, width)
  {
    MulSucc(i, width);
    assert (i + 1) * width <= n * width;
  }

  /** The offsets of `n` adjacent `ps`-byte pixels from `start` on. */
  function Consecutive(start: nat, ps: nat, n: nat): (s: seq<nat>)
    ensures |s| == n && Within(s, ps, IndexOffset(start, n, ps))
  {
    var s := seq(n, i requires 0 <= i < n => IndexOffset(start, i, ps));
    assert Within(s, ps, IndexOffset(start, n, ps)) by {
      forall i | 0 <= i < n
        ensures s[i] + ps <= IndexOffset(start, n, ps)
      {
        IndexOffsetBound(start, i, n, ps);
      }
    }
    s
  }

  /** One more adjacent pixel extends the offsets by the next one. */
  lemma {:induction false} ConsecutiveSnoc(start: nat, ps: nat, n: nat)
    ensures Consecutive(start, ps, n + 1) == Consecutive(start, ps, n) + [IndexOffset(start, n, ps)]
  {
  }

  /** `n` copies of the offset `x`: the sources of a run packet. */
  function Repeat(x: nat, n: nat): (s: seq<nat>)
    ensures |s| == n && forall i :: 0 <= i < n ==> s[i] == x
    decreases n
  {
    if n == 0 then [] else Repeat(x, n - 1) + [x]
  }

  // ---------------------------------------------------------------------
  // Type 1: colour-mapped

  /** The next colour-map index: a `uint8_t` or a little-endian `uint16_t`. */
  function IndexAt(data: seq<byte>, off: nat, width: nat): (idx: nat)
    requires width == 1 || width == 2
    requires off + width <= |data|
    ensures width == 1 ==> idx == data[off]
    ensures width == 2 ==> idx == LE16(data, off)
  {
    if width == 1 then data[off] else LE16(data, off)
  }

  /**
    `tga_load_compressed_paletted`, first layer: the `n` colour-map indices of
    `width` bytes each from `off` on. A short read is an underflow; an index
    naming no entry of the `entries`-entry colour map is rejected (corrected
    behaviour: the source reads past the colour map).
  */
  function Paletted(data: seq<byte>, off: nat, width: nat, entries: nat, n: nat): (r: Result<seq<nat>>)
    requires off <= |data| && (width == 1 || width == 2)
    ensures r.Ok? ==> |r.value| == n
    ensures r.Err? ==> r.error == Underflow || r.error == Rejected
    decreases n
  {
    if n == 0 then Ok([])
    else if |data| - off < width then Err(Underflow)
    else
      var idx := IndexAt(data, off, width);
      if idx >= entries then Err(Rejected)
      else Prepend([idx], Paletted(data, off + width, width, entries, n - 1))
  }

  /** Every index of a successful decode names an entry of the colour map. */
  lemma {:induction false} PalettedBelow(data: seq<byte>, off: nat, width: nat, entries: nat, n: nat)
    requires off <= |data| && (width == 1 || width == 2)
    requires Paletted(data, off, width, entries, n).Ok?
    ensures forall i :: 0 <= i < n ==> Paletted(data, off, width, entries, n).value[i] < entries
    decreases n
  {
    if n > 0 {
      PalettedBelow(data, off + width, width, entries, n - 1);
    }
  }

  /** The index at `pos` is present and names an entry of the colour map. */
  predicate IndexFits(data: seq<byte>, pos: nat, width: nat, entries: nat)
    requires width == 1 || width == 2
  {
    pos + width <= |data| && IndexAt(data, pos, width) < entries
  }

  /** On success, index `i` is the one stored at the `i`-th position. */
  lemma {:induction false} PalettedAt(data: seq<byte>, off: nat, width: nat, entries: nat, n: nat, i: nat)
    requires off <= |data| && (width == 1 || width == 2) && i < n
    requires Paletted(data, off, width, entries, n).Ok?
    ensures IndexFits(data, IndexOffset(off, i, width), width, entries)
    ensures Paletted(data, off, width, entries, n).value[i] == IndexAt(data, IndexOffset(off, i, width), width)
    decreases n
  {
    if i > 0 {
      PalettedAt(data, off + width, width, entries, n - 1, i - 1);
      IndexOffsetShift(off, i - 1, width);
    }
  }

  lemma {:induction false} PalettedOkOfFits(data: seq<byte>, off: nat, width: nat, entries: nat, n: nat)
    requires off <= |data| && (width == 1 || width == 2)
    requires forall i :: 0 <= i < n ==> IndexFits(data, IndexOffset(off, i, width), width, entries)
    ensures Paletted(data, off, width, entries, n).Ok?
    decreases n
  {
    if n > 0 {
      assert IndexOffset(off, 0, width) == off;
      assert IndexFits(data, off, width, entries);
      var next := off + width;
      forall i | 0 <= i < n - 1
        ensures IndexFits(data, IndexOffset(next, i, width), width, entries)
      {
        IndexOffsetShift(off, i, width);
        assert IndexFits(data, IndexOffset(off, i + 1, width), width, entries);
      }
      PalettedOkOfFits(data, next, width, entries, n - 1);
    }
  }

  /** Colour-mapped decoding succeeds iff each of the `n` indices is present and names an entry. */
  lemma {:induction false} PalettedOkIff(data: seq<byte>, off: nat, width: nat, entries: nat, n: nat)
    requires off <= |data| && (width == 1 || width == 2)
    ensures Paletted(data, off, width, entries, n).Ok? <==>
      forall i :: 0 <= i < n ==> IndexFits(data, IndexOffset(off, i, width), width, entries)
  {
    if Paletted(data, off, width, entries, n).Ok? {
      forall i | 0 <= i < n
        ensures IndexFits(data, IndexOffset(off, i, width), width, entries)
      {
        PalettedAt(data, off, width, entries, n, i);
      }
    } else if forall i :: 0 <= i < n ==> IndexFits(data, IndexOffset(off, i, width), width, entries) {
      PalettedOkOfFits(data, off, width, entries, n);
    }
  }

  /** Where colour-map entry `indices[i]` starts, for each `i`. */
  function EntryOffsets(indices: seq<nat>, ps: nat, entries: nat): (s: seq<nat>)
    requires forall i :: 0 <= i < |indices| ==> indices[i] < entries
    ensures |s| == |indices| && Within(s, ps, IndexOffset(0, entries, ps))
    ensures forall i :: 0 <= i < |indices| ==> s[i] == IndexOffset(0, indices[i], ps)
    decreases |indices|
  {
    if |indices| == 0 then []
    else
      var n := |indices| - 1;
      IndexOffsetBound(0, indices[n], entries, ps);
      var s := EntryOffsets(indices[..n], ps, entries) + [IndexOffset(0, indices[n], ps)];
      assert forall i :: 0 <= i < n ==> indices[..n][i] == indices[i];
      s
  }

  /** One more index names one more entry offset. */
  lemma {:induction false} EntryOffsetsSnoc(indices: seq<nat>, idx: nat, ps: nat, entries: nat)
    requires (forall i :: 0 <= i < |indices| ==> indices[i] < entries) && idx < entries
    ensures forall i :: 0 <= i < |indices + [idx]| ==> (indices + [idx])[i] < entries
    ensures EntryOffsets(indices + [idx], ps, entries) == EntryOffsets(indices, ps, entries) + [IndexOffset(0, idx, ps)]
  {
    assert (indices + [idx])[..|indices|] == indices;
  }

  /**
    The number of colour-map entries an index may name: `colormap_len` when
    the header declares a colour map (`colormap_type == 1`), and none
    otherwise. Without a colour map the source still reads entries through
    the pointer peeked where a colour map would start, that is from the index
    bytes themselves; the corrected decoder refuses every index there.
  */
  function Entries(h: Header): nat {
    if h.colormapType == 1 then h.colormapLen else 0
  }

  /** The colour map holds exactly `Entries(h)` entries of `pixelsize` bytes. */
  lemma {:induction false} ColormapHoldsEntries(h: Header)
    ensures ColormapSize(h) == IndexOffset(0, Entries(h), PixelSize(h))
  {
  }

  // ---------------------------------------------------------------------
  // Type 10: run-length encoded true colour

  /** `(blockhead & 0x7F) + 1`: the pixels a packet produces, 1 to 128. */
  function PacketCount(control: byte): (n: nat)
    ensures 1 <= n <= 128
  {
    control % 0x80 + 1
  }

  /** `blockhead & 0x80`: a run packet repeats one pixel. */
  predicate IsRunPacket(control: byte) {
    control >= 0x80
  }

  /** A decoded packet: the offsets of its output pixels and where the next packet starts. */
  datatype Packet = Packet(sources: seq<nat>, next: nat)

  /**
    One packet at `off` with `need` pixels still to produce. A run packet
    carries one pixel of `ps` bytes, a raw packet its pixels verbatim; any
    short read is an underflow. A packet carrying more pixels than `need` is
    rejected: the source writes it out whole, past the end of the output
    (corrected behaviour).
  */
  function ReadPacket(data: seq<byte>, off: nat, ps: nat, need: nat): (r: Result<Packet>)
    requires off <= |data|
    ensures r.Ok? ==> off < r.value.next <= |data| && 1 <= |r.value.sources| <= need
    ensures r.Ok? ==> Within(r.value.sources, ps, |data|)
    ensures r.Err? ==> r.error == Underflow || r.error == Rejected
  {
    if |data| - off < 1 then Err(Underflow)
    else
      var control := data[off];
      var count := PacketCount(control);
      if count > need then Err(Rejected)
      else if IsRunPacket(control) then
        if |data| - (off + 1) < ps then Err(Underflow)
        else Ok(Packet(Repeat(off + 1, count), off + 1 + ps))
      else
        if |data| - (off + 1) < IndexOffset(0, count, ps) then Err(Underflow)
        else Ok(Packet(Consecutive(off + 1, ps, count), IndexOffset(off + 1, count, ps)))
  }

  /** A run packet yields `count` copies of the pixel right after its control byte. */
  lemma {:induction false} RunPacketRepeats(data: seq<byte>, off: nat, ps: nat, need: nat)
    requires off < |data| && IsRunPacket(data[off]) && ReadPacket(data, off, ps, need).Ok?
    ensures var p := ReadPacket(data, off, ps, need).value;
      |p.sources| == PacketCount(data[off]) && p.next == off + 1 + ps &&
      forall i :: 0 <= i < |p.sources| ==> p.sources[i] == off + 1
  {
  }

  /** A raw packet yields `count` adjacent pixels after its control byte. */
  lemma {:induction false} RawPacketAdjacent(data: seq<byte>, off: nat, ps: nat, need: nat)
    requires off < |data| && !IsRunPacket(data[off]) && ReadPacket(data, off, ps, need).Ok?
    ensures var p := ReadPacket(data, off, ps, need).value;
      |p.sources| == PacketCount(data[off]) && p.next == IndexOffset(off + 1, |p.sources|, ps) &&
      forall i :: 0 <= i < |p.sources| ==> p.sources[i] == IndexOffset(off + 1, i, ps)
  {
  }

  /** A decoded packet depends only on its own bytes. */
  lemma {:induction false} ReadPacketLocal(data: seq<byte>, other: seq<byte>, off: nat, ps: nat, need: nat)
    requires off <= |data| && ReadPacket(data, off, ps, need).Ok?
    requires var e := ReadPacket(data, off, ps, need).value.next;
      e <= |other| && other[..e] == data[..e]
    ensures ReadPacket(other, off, ps, need) == ReadPacket(data, off, ps, need)
  {
    var e := ReadPacket(data, off, ps, need).value.next;
    assert other[off] == data[off];
  }

  /** Cutting the input anywhere inside a packet makes reading it an underflow. */
  lemma {:induction false} ReadPacketShort(data: seq<byte>, t: seq<byte>, off: nat, ps: nat, need: nat)
    requires off <= |data| && ReadPacket(data, off, ps, need).Ok?
    requires off <= |t| < ReadPacket(data, off, ps, need).value.next
    requires t == data[..|t|]
    ensures ReadPacket(t, off, ps, need) == Err(Underflow)
  {
    if off < |t| {
      assert t[off] == data[off];
    }
  }

  /**
    `tga_load_compressed_true_color`, first layer: the offsets of the `n`
    output pixels, packet after packet from `off` on.
  */
  function Rle(data: seq<byte>, off: nat, ps: nat, n: nat): (r: Result<seq<nat>>)
    requires off <= |data|
    ensures r.Ok? ==> |r.value| == n && Within(r.value, ps, |data|)
    ensures r.Err? ==> r.error == Underflow || r.error == Rejected
    decreases n
  {
    if n == 0 then Ok([])
    else
      var p := ReadPacket(data, off, ps, n);
      if p.Err? then Err(p.error)
      else Prepend(p.value.sources, Rle(data, p.value.next, ps, n - |p.value.sources|))
  }

  /** Where the packets that produce `n` pixels end, when they all decode. */
  function RleEnd(data: seq<byte>, off: nat, ps: nat, n: nat): (e: nat)
    requires off <= |data| && Rle(data, off, ps, n).Ok?
    ensures off <= e <= |data|
    ensures n > 0 ==> off < e
    decreases n
  {
    if n == 0 then off
    else
      var p := ReadPacket(data, off, ps, n).value;
      RleEnd(data, p.next, ps, n - |p.sources|)
  }

  /** A successful decode depends only on the bytes of its packets. */
  lemma {:induction false} RleLocal(data: seq<byte>, other: seq<byte>, off: nat, ps: nat, n: nat)
    requires off <= |data| && Rle(data, off, ps, n).Ok?
    requires var e := RleEnd(data, off, ps, n); e <= |other| && other[..e] == data[..e]
    ensures Rle(other, off, ps, n) == Rle(data, off, ps, n)
    decreases n
  {
    if n > 0 {
      var e := RleEnd(data, off, ps, n);
      var p := ReadPacket(data, off, ps, n).value;
      assert other[..p.next] == data[..p.next] by {
        assert other[..p.next] == other[..e][..p.next];
        assert data[..p.next] == data[..e][..p.next];
      }
      ReadPacketLocal(data, other, off, ps, n);
      assert e == RleEnd(data, p.next, ps, n - |p.sources|);
      RleLocal(data, other, p.next, ps, n - |p.sources|);
    }
  }

  /** Appending bytes after a well-formed stream changes nothing. */
  lemma {:induction false} RleExtend(data: seq<byte>, more: seq<byte>, off: nat, ps: nat, n: nat)
    requires off <= |data| && Rle(data, off, ps, n).Ok?
    ensures Rle(data + more, off, ps, n) == Rle(data, off, ps, n)
  {
    var e := RleEnd(data, off, ps, n);
    assert (data + more)[..e] == data[..e];
    RleLocal(data, data + more, off, ps, n);
  }

  /**
    Cutting a well-formed stream anywhere before the end of its last packet
    makes the decode an underflow, never a short or wrong result.
  */
  lemma {:induction false} RleTruncated(data: seq<byte>, t: seq<byte>, off: nat, ps: nat, n: nat)
    requires off <= |data| && Rle(data, off, ps, n).Ok?
    requires off <= |t| < RleEnd(data, off, ps, n)
    requires t == data[..|t|]
    ensures Rle(t, off, ps, n) == Err(Underflow)
    decreases n
  {
    var p := ReadPacket(data, off, ps, n).value;
    var rest := n - |p.sources|;
    if |t| < p.next {
      ReadPacketShort(data, t, off, ps, n);
    } else {
      assert ReadPacket(t, off, ps, n) == Ok(p) by {
        assert t[..p.next] == data[..p.next];
        ReadPacketLocal(data, t, off, ps, n);
      }
      assert Rle(t, p.next, ps, rest) == Err(Underflow) by {
        assert RleEnd(data, off, ps, n) == RleEnd(data, p.next, ps, rest);
        RleTruncated(data, t, p.next, ps, rest);
      }
    }
  }

  // ---------------------------------------------------------------------
  // The whole reader

  /** The data section of the file: what follows the header, the id and the colour map. */
  function DataStart(data: seq<byte>, h: Header): nat
  {
    HeaderSize + h.idlen + (if h.colormapType == 1 then ColormapSize(h) else 0)
  }

  /**
    Type 1 (`TGA_UNCOMPRESSED_MAPPED`): one colour-map entry per index. `cm`
    is where the colour map starts (peeked before it is skipped) and `start`
    where the indices start. An image whose `bits` is neither 8 nor 16 falls
    through the source's inner `switch` and keeps its `pixelcount`
    value-initialised (all-zero) pixels.
  */
  function MappedBody(data: seq<byte>, h: Header, cm: nat, start: nat, to: Layout): (r: Result<seq<Pixel>>)
    requires cm + ColormapSize(h) <= |data| && start <= |data|
    requires PixelSize(h) == 3 || PixelSize(h) == 4
    ensures r.Ok? ==> |r.value| == PixelCount(h)
    ensures r.Err? ==> h.bits == 8 || h.bits == 16
    ensures h.bits != 8 && h.bits != 16 ==> r.Ok? && forall i :: 0 <= i < |r.value| ==> r.value[i] == Zero(to)
  {
    var count := PixelCount(h);
    var ps := PixelSize(h);
    if h.bits == 8 || h.bits == 16 then
      var indices := Paletted(data, start, h.bits / 8, Entries(h), count);
      if indices.Err? then Err(indices.error)
      else
        PalettedBelow(data, start, h.bits / 8, Entries(h), count);
        ColormapHoldsEntries(h);
        Ok(Render(data[cm..cm + ColormapSize(h)], EntryOffsets(indices.value, ps, Entries(h)), DiskLayout(ps), to))
    else Ok(seq(count, _ => Zero(to)))
  }

  /**
    A type 1 body decodes iff, with 8- or 16-bit indices, each of the
    `pixelcount` indices from `start` on is present and names an entry of the
    colour map.
  */
  lemma {:induction false} MappedBodyOkIff(data: seq<byte>, h: Header, cm: nat, start: nat, to: Layout)
    requires cm + ColormapSize(h) <= |data| && start <= |data|
    requires PixelSize(h) == 3 || PixelSize(h) == 4
    ensures MappedBody(data, h, cm, start, to).Ok? <==>
      ((h.bits == 8 || h.bits == 16) ==>
        forall i :: 0 <= i < PixelCount(h) ==> IndexFits(data, IndexOffset(start, i, h.bits / 8), h.bits / 8, Entries(h)))
  {
    if h.bits == 8 || h.bits == 16 {
      PalettedOkIff(data, start, h.bits / 8, Entries(h), PixelCount(h));
    }
  }

  /** Rendering entry offsets over a colour map at `cm` reads entry `indices[i]` of it. */
  lemma {:induction false} RenderEntryAt(data: seq<byte>, cm: nat, indices: seq<nat>, ps: nat, entries: nat, to: Layout, i: nat)
    requires (ps == 3 || ps == 4) && cm + IndexOffset(0, entries, ps) <= |data|
    requires (forall k :: 0 <= k < |indices| ==> indices[k] < entries) && i < |indices|
    ensures IndexOffset(0, indices[i], ps) + ps <= IndexOffset(0, entries, ps)
    ensures Render(data[cm..cm + IndexOffset(0, entries, ps)], EntryOffsets(indices, ps, entries), DiskLayout(ps), to)[i] ==
      PixelCast(to, StoredAt(data, cm + IndexOffset(0, indices[i], ps), DiskLayout(ps)))
  {
    IndexOffsetBound(0, indices[i], entries, ps);
    var cmap := data[cm..cm + IndexOffset(0, entries, ps)];
    RenderAt(cmap, EntryOffsets(indices, ps, entries), DiskLayout(ps), to, i);
    var at := IndexOffset(0, indices[i], ps);
    assert at + ps <= |cmap|;
    var entry, direct := cmap[at..at + ps], data[cm + at..cm + at + ps];
    forall k | 0 <= k < ps
      ensures entry[k] == direct[k]
    {
      assert cmap[at + k] == data[cm + at + k];
    }
    assert entry == direct;
  }

  /**
    Pixel `i` of a decoded type 1 body is the colour-map entry named by the
    `i`-th index, read at `cm + index * pixelsize` and converted to `to`.
  */
  lemma {:induction false} MappedBodyAt(data: seq<byte>, h: Header, cm: nat, start: nat, to: Layout, i: nat)
    requires cm + ColormapSize(h) <= |data| && start <= |data|
    requires PixelSize(h) == 3 || PixelSize(h) == 4
    requires h.bits == 8 || h.bits == 16
    requires MappedBody(data, h, cm, start, to).Ok? && i < PixelCount(h)
    ensures IndexFits(data, IndexOffset(start, i, h.bits / 8), h.bits / 8, Entries(h))
    ensures var idx := IndexAt(data, IndexOffset(start, i, h.bits / 8), h.bits / 8);
      IndexOffset(0, idx, PixelSize(h)) + PixelSize(h) <= ColormapSize(h)
    ensures var idx := IndexAt(data, IndexOffset(start, i, h.bits / 8), h.bits / 8);
      MappedBody(data, h, cm, start, to).value[i] ==
        PixelCast(to, StoredAt(data, cm + IndexOffset(0, idx, PixelSize(h)), DiskLayout(PixelSize(h))))
  {
    var w, ps, count, entries := h.bits / 8, PixelSize(h), PixelCount(h), Entries(h);
    var indices := Paletted(data, start, w, entries, count);
    PalettedAt(data, start, w, entries, count, i);
    PalettedBelow(data, start, w, entries, count);
    ColormapHoldsEntries(h);
    RenderEntryAt(data, cm, indices.value, ps, entries, to, i);
  }

  /**
    Without a colour map (`colormap_type != 1`) no index names an entry, so a
    non-empty type 1 image with 8- or 16-bit indices is refused.
  */
  lemma {:induction false} MappedWithoutColormap(data: seq<byte>, h: Header, cm: nat, start: nat, to: Layout)
    requires cm + ColormapSize(h) <= |data| && start <= |data|
    requires PixelSize(h) == 3 || PixelSize(h) == 4
    requires h.colormapType != 1 && (h.bits == 8 || h.bits == 16) && PixelCount(h) > 0
    ensures MappedBody(data, h, cm, start, to).Err?
  {
    MappedBodyOkIff(data, h, cm, start, to);
    assert !IndexFits(data, IndexOffset(start, 0, h.bits / 8), h.bits / 8, Entries(h));
  }

  /**
    Type 2 (`TGA_UNCOMPRESSED_RGB`): `pixelcount` adjacent stored pixels from
    `start` on, rejected when fewer bytes remain than they need.
  */
  function RgbBody(data: seq<byte>, h: Header, start: nat, to: Layout): (r: Result<seq<Pixel>>)
    requires start <= |data|
    requires PixelSize(h) == 3 || PixelSize(h) == 4
    ensures r.Ok? ==> |r.value| == PixelCount(h)
    ensures r.Err? <==> |data| - start < PixelCount(h) * PixelSize(h)
  {
    var count := PixelCount(h);
    var ps := PixelSize(h);
    if |data| - start < IndexOffset(0, count, ps) then Err(Rejected)
    else Ok(Render(data, Consecutive(start, ps, count), DiskLayout(ps), to))
  }

  /**
    Type 10 (`TGA_RLE_RBG`): the packets from `start` on, whose stored pixels
    have `bits / 8` bytes. Any other `bits` keeps the all-zero pixels.
  */
  function RleBody(data: seq<byte>, h: Header, start: nat, to: Layout): (r: Result<seq<Pixel>>)
    requires start <= |data|
    ensures r.Ok? ==> |r.value| == PixelCount(h)
  {
    var count := PixelCount(h);
    if h.bits == 24 || h.bits == 32 then
      var sources := Rle(data, start, h.bits / 8, count);
      if sources.Err? then Err(sources.error)
      else Ok(Render(data, sources.value, DiskLayout(h.bits / 8), to))
    else Ok(seq(count, _ => Zero(to)))
  }

  /** The pixel decoding selected by `image_type`, after the header checks. */
  function DecodeBody(data: seq<byte>, h: Header, cm: nat, start: nat, to: Layout): (r: Result<seq<Pixel>>)
    requires cm + ColormapSize(h) <= |data| && start <= |data|
    requires PixelSize(h) == 3 || PixelSize(h) == 4
    ensures r.Ok? ==> |r.value| == PixelCount(h)
    ensures h.imageType != 1 && h.imageType != 2 && h.imageType != 10 ==> r == Err(Rejected)
  {
    if h.imageType == UncompressedMapped.Code() then MappedBody(data, h, cm, start, to)
    else if h.imageType == UncompressedRgb.Code() then RgbBody(data, h, start, to)
    else if h.imageType == RleRgb.Code() then RleBody(data, h, start, to)
    else Err(Rejected)
  }

  /**
    `tga_load_memory` after the header and the id: the colour-map and
    pixel-size checks, then the decoding selected by the image type. On
    success the outputs are the header's width and height,
    `bpp == pixelsize` (3 or 4) and exactly `width*height` pixels.
  */
  function DecodeImage(data: seq<byte>, h: Header, to: Layout): (r: Result<TgaImage>)
    requires HeaderSize + h.idlen <= |data|
    ensures r.Ok? ==>
      r.value.width == h.width && r.value.height == h.height &&
      r.value.bpp == PixelSize(h) && (r.value.bpp == 3 || r.value.bpp == 4) &&
      |r.value.pixels| == h.width * h.height
    ensures var cm := HeaderSize + h.idlen;
      |data| - cm < ColormapSize(h) ==> r == Err(Rejected)
    ensures h.colormapType == 1 && h.bits != 8 && h.bits != 16 ==> r == Err(Rejected)
    ensures var cm := HeaderSize + h.idlen;
      (|data| - cm >= ColormapSize(h) && h.colormapType == 1 &&
       h.bits * PixelCount(h) < |data| - cm - ColormapSize(h)) ==> r == Err(Rejected)
    ensures PixelSize(h) != 3 && PixelSize(h) != 4 ==> r == Err(Rejected)
    ensures h.imageType != 1 && h.imageType != 2 && h.imageType != 10 ==> r == Err(Rejected)
  {
    var cm := HeaderSize + h.idlen;
    var cmSize := ColormapSize(h);
    if |data| - cm < cmSize then Err(Rejected)
    else
      var datasize := |data| - cm - cmSize;
      var ps := PixelSize(h);
      if h.colormapType == 1 && h.bits != 8 && h.bits != 16 then Err(Rejected)
      else if h.colormapType == 1 && h.bits * PixelCount(h) < datasize then Err(Rejected)
      else if ps != 3 && ps != 4 then Err(Rejected)
      else
        var body := DecodeBody(data, h, cm, DataStart(data, h), to);
        if body.Err? then Err(body.error)
        else Ok(TgaImage(h.width, h.height, ps, body.value))
  }

  /**
    `tga_load_memory` into pixels of layout `to`: a short header or id is an
    underflow, then `DecodeImage`.
  */
  function TgaDecode(data: seq<byte>, to: Layout): (r: Result<TgaImage>)
    ensures |data| < HeaderSize ==> r == Err(Underflow)
    ensures r.Ok? ==> (|data| >= HeaderSize &&
      var h := ParseHeader(data[..HeaderSize]);
      r.value.width == h.width && r.value.height == h.height &&
      r.value.bpp == PixelSize(h) && (r.value.bpp == 3 || r.value.bpp == 4) &&
      |r.value.pixels| == h.width * h.height)
  {
    if |data| < HeaderSize then Err(Underflow)
    else
      var h := ParseHeader(data[..HeaderSize]);
      if |data| - HeaderSize < h.idlen then Err(Underflow)
      else DecodeImage(data, h, to)
  }

  /** The header and the id that follows it are all there. */
  predicate HeaderPresent(data: seq<byte>) {
    |data| >= HeaderSize && |data| - HeaderSize >= ParseHeader(data[..HeaderSize]).idlen
  }

  /**
    Every check `tga_load_memory` makes before decoding pixels passes: the
    colour map is all there, a colour map comes with 8- or 16-bit indices and
    `bits * pixelcount >= datasize`, `pixelsize` is 3 or 4, and the image
    type is 1, 2 or 10.
  */
  predicate Supported(data: seq<byte>, h: Header)
    requires HeaderSize + h.idlen <= |data|
  {
    var cm := HeaderSize + h.idlen;
    |data| - cm >= ColormapSize(h) &&
    (h.colormapType == 1 ==>
      (h.bits == 8 || h.bits == 16) && h.bits * PixelCount(h) >= |data| - cm - ColormapSize(h)) &&
    (PixelSize(h) == 3 || PixelSize(h) == 4) &&
    (h.imageType == 1 || h.imageType == 2 || h.imageType == 10)
  }

  /**
    How `tga_load_memory` fails: a missing header or id is an underflow, any
    failing check is a rejection whichever check it is, and once every
    check passes the result is that of decoding the pixels.
  */
  lemma {:induction false} TgaDecodeErrIff(data: seq<byte>, to: Layout)
    ensures !HeaderPresent(data) ==> TgaDecode(data, to) == Err(Underflow)
    ensures HeaderPresent(data) && !Supported(data, ParseHeader(data[..HeaderSize])) ==>
      TgaDecode(data, to) == Err(Rejected)
    ensures HeaderPresent(data) && Supported(data, ParseHeader(data[..HeaderSize])) ==>
      var h := ParseHeader(data[..HeaderSize]);
      var body := DecodeBody(data, h, HeaderSize + h.idlen, DataStart(data, h), to);
      TgaDecode(data, to) == if body.Err? then Err(body.error) else Ok(TgaImage(h.width, h.height, PixelSize(h), body.value))
    ensures TgaDecode(data, to).Err? <==>
      !HeaderPresent(data) || !Supported(data, ParseHeader(data[..HeaderSize])) ||
      var h := ParseHeader(data[..HeaderSize]);
      DecodeBody(data, h, HeaderSize + h.idlen, DataStart(data, h), to).Err?
  {
  }
}
