/**
  The reader of `tga.hpp` as the source writes it: a cursor over the input,
  a value-initialised pixel buffer of `width*height` pixels, and the three
  per-type readers filling it through an advancing index. Each method is
  proved to compute what module TgaSpec says.
*/
module TgaLoader {
  import opened Bytes
  import opened Errors
  import opened Pixels
  import opened TgaHeader
  import opened TgaSpec
  import opened ByteDecoder

  /**
    One step of `tga_load_compressed_paletted`: `map_pixels[decoder.read<palette_type>()]`
    cast to `to`. The index is a `uint8_t` (`width == 1`) or a little-endian
    `uint16_t` (`width == 2`); one naming no entry of the colour map is
    rejected (corrected behaviour).
  */
  method LoadEntry(dec: Decoder, palette: seq<byte>, src: Layout, width: nat, entries: nat, to: Layout)
    returns (r: Result<Pixel>, ghost idx: nat)
    requires dec.Valid() && (width == 1 || width == 2)
    requires |palette| == IndexOffset(0, entries, src.Size())
    modifies dec
    ensures dec.Valid()
    ensures |dec.mem| - old(dec.offset) < width ==> r == Err(Underflow)
    ensures |dec.mem| - old(dec.offset) >= width ==>
      dec.offset == old(dec.offset) + width && idx == IndexAt(dec.mem, old(dec.offset), width) &&
      (r.Err? <==> idx >= entries) && (r.Err? ==> r.error == Rejected)
    ensures r.Ok? ==> (idx < entries && IndexOffset(0, idx, src.Size()) + src.Size() <= |palette| &&
      r.value == PixelCast(to, StoredAt(palette, IndexOffset(0, idx, src.Size()), src)))
  {
    idx := 0;
    ghost var cur := dec.offset;
    var rd := dec.Read(width);
    if rd.Err? {
      return Err(Underflow), idx;
    }
    var i: nat := if width == 1 then rd.value[0] else LE16(rd.value, 0);
    idx := i;
    assert idx == IndexAt(dec.mem, cur, width);
    if i >= entries {
      return Err(Rejected), idx;
    }
    var ps := src.Size();
    var at := IndexOffset(0, i, ps);
    IndexOffsetBound(0, i, entries, ps);
    r := Ok(PixelCast(to, FromBytes(src, palette[at..at + ps])));
  }

  /**
    `tga_load_compressed_paletted`: `size` colour-map entries, one per index
    read through the cursor, cast into `out[0..size)`.
  */
  method LoadPaletted(dec: Decoder, palette: seq<byte>, src: Layout, width: nat, entries: nat,
                      out: array<Pixel>, size: nat, to: Layout) returns (o: Outcome)
    requires dec.Valid() && (width == 1 || width == 2) && out.Length == size
    requires |palette| == IndexOffset(0, entries, src.Size())
    modifies dec, out
    ensures dec.Valid()
    ensures var r := Paletted(dec.mem, old(dec.offset), width, entries, size);
      match r
      case Err(e) => o == Fail(e)
      case Ok(indices) =>
        o == Pass && dec.offset == IndexOffset(old(dec.offset), size, width) &&
        (forall k :: 0 <= k < size ==> indices[k] < entries) &&
        out[..] == Render(palette, EntryOffsets(indices, src.Size(), entries), src, to)
  {
    ghost var off0 := dec.offset;
    ghost var whole := Paletted(dec.mem, dec.offset, width, entries, size);
    ghost var indices: seq<nat> := [];
    var i := 0;
    PrependNil(whole);
    while i < size
      invariant dec.Valid() && 0 <= i <= size && |indices| == i
      invariant dec.offset == IndexOffset(off0, i, width)
      invariant whole == Prepend(indices, Paletted(dec.mem, dec.offset, width, entries, size - i))
      invariant (forall k :: 0 <= k < i ==> indices[k] < entries) &&
        out[..i] == Render(palette, EntryOffsets(indices, src.Size(), entries), src, to)
    {
      var r;
      r, indices := LoadPalettedIndex(dec, palette, src, width, entries, out, i, size, to, off0, whole, indices);
      if r.Fail? {
        return r;
      }
      i := i + 1;
    }
    PrependDone(indices);
    assert out[..] == out[..size];
    return Pass;
  }

  /**
    One pass of that loop: the next entry appended to the `i` pixels decoded
    so far, or the error that ends the whole decode.
  */
  method LoadPalettedIndex(dec: Decoder, palette: seq<byte>, src: Layout, width: nat, entries: nat,
                           out: array<Pixel>, i: nat, size: nat, to: Layout,
                           ghost off0: nat, ghost whole: Result<seq<nat>>, ghost indices: seq<nat>)
    returns (o: Outcome, ghost indices': seq<nat>)
    requires dec.Valid() && (width == 1 || width == 2) && out.Length == size
    requires |palette| == IndexOffset(0, entries, src.Size())
    requires i < size && |indices| == i && dec.offset == IndexOffset(off0, i, width)
    requires whole == Prepend(indices, Paletted(dec.mem, dec.offset, width, entries, size - i))
    requires (forall k :: 0 <= k < i ==> indices[k] < entries) &&
      out[..i] == Render(palette, EntryOffsets(indices, src.Size(), entries), src, to)
    modifies dec, out
    ensures dec.Valid()
    ensures o.Fail? ==> whole == Err(o.error)
    ensures o.Pass? ==>
      |indices'| == i + 1 && dec.offset == IndexOffset(off0, i + 1, width) &&
      whole == Prepend(indices', Paletted(dec.mem, dec.offset, width, entries, size - (i + 1))) &&
      (forall k :: 0 <= k < i + 1 ==> indices'[k] < entries) &&
      out[..i + 1] == Render(palette, EntryOffsets(indices', src.Size(), entries), src, to)
  {
    ghost var cur, rest := dec.offset, size - i;
    ghost var prefix := out[..i];
    var p, idx := LoadEntry(dec, palette, src, width, entries, to);
    if p.Err? {
      PalettedStop(dec.mem, cur, width, entries, rest, p.error);
      return Fail(p.error), indices;
    }
    out[i] := p.value;
    assert out[..i + 1] == prefix + [p.value];
    indices' := indices + [idx];
    EntryAppended(dec.mem, palette, src, width, entries, whole, indices, off0, cur, idx, i, size, dec.offset, to,
                  prefix, p.value, indices');
    return Pass, indices';
  }

  /** The account of the indices and the pixels written, both carried past one more entry. */
  lemma {:induction false} EntryAppended(data: seq<byte>, palette: seq<byte>, src: Layout, width: nat, entries: nat,
                                         whole: Result<seq<nat>>, indices: seq<nat>, off0: nat, off: nat, idx: nat,
                                         i: nat, size: nat, next: nat, to: Layout,
                                         prefix: seq<Pixel>, v: Pixel, indices': seq<nat>)
    requires (width == 1 || width == 2) && off + width <= |data| && next == off + width
    requires i < size && |indices| == i && off == IndexOffset(off0, i, width)
    requires idx == IndexAt(data, off, width) && idx < entries && indices' == indices + [idx]
    requires |palette| == IndexOffset(0, entries, src.Size())
    requires whole == Prepend(indices, Paletted(data, off, width, entries, size - i))
    requires (forall k :: 0 <= k < i ==> indices[k] < entries) &&
      prefix == Render(palette, EntryOffsets(indices, src.Size(), entries), src, to)
    requires IndexOffset(0, idx, src.Size()) + src.Size() <= |palette| &&
      v == PixelCast(to, StoredAt(palette, IndexOffset(0, idx, src.Size()), src))
    ensures |indices'| == i + 1 && next == IndexOffset(off0, i + 1, width) &&
      whole == Prepend(indices', Paletted(data, next, width, entries, size - (i + 1))) &&
      (forall k :: 0 <= k < i + 1 ==> indices'[k] < entries) &&
      prefix + [v] == Render(palette, EntryOffsets(indices', src.Size(), entries), src, to)
  {
    PalettedStep(data, off, width, entries, size - i, idx);
    PrependChain(whole, indices, Paletted(data, off, width, entries, size - i), [idx],
                 Paletted(data, next, width, entries, size - (i + 1)), indices');
    MulSucc(i, width);
    EntryOffsetsSnoc(indices, idx, src.Size(), entries);
    RenderSnoc(palette, EntryOffsets(indices, src.Size(), entries), IndexOffset(0, idx, src.Size()), src, to);
  }

  /** An index that cannot be read, or that names no entry, ends the whole decode. */
  lemma {:induction false} PalettedStop(data: seq<byte>, off: nat, width: nat, entries: nat, n: nat, e: Error)
    requires off <= |data| && (width == 1 || width == 2) && n > 0
    requires (|data| - off < width && e == Underflow) ||
      (|data| - off >= width && IndexAt(data, off, width) >= entries && e == Rejected)
    ensures Paletted(data, off, width, entries, n) == Err(e)
  {
  }

  /** One more pixel written after a rendered stretch `out[at..]` extends the rendering. */
  lemma {:induction false} RenderedSnoc(bytes: seq<byte>, offsets: seq<nat>, pos: nat, src: Layout, to: Layout, out: array<Pixel>, at: nat)
    requires Within(offsets, src.Size(), |bytes|) && at + |offsets| < out.Length && pos + src.Size() <= |bytes|
    requires out[at..at + |offsets|] == Render(bytes, offsets, src, to)
    requires out[at + |offsets|] == PixelCast(to, StoredAt(bytes, pos, src))
    ensures Within(offsets + [pos], src.Size(), |bytes|)
    ensures out[at..at + |offsets| + 1] == Render(bytes, offsets + [pos], src, to)
  {
    RenderSnoc(bytes, offsets, pos, src, to);
    assert out[at..at + |offsets| + 1] == out[at..at + |offsets|] + [out[at + |offsets|]];
  }

  lemma {:induction false} PalettedStep(data: seq<byte>, off: nat, width: nat, entries: nat, n: nat, idx: nat)
    requires (width == 1 || width == 2) && n > 0 && off + width <= |data|
    requires idx == IndexAt(data, off, width) && idx < entries
    ensures Paletted(data, off, width, entries, n) == Prepend([idx], Paletted(data, off + width, width, entries, n - 1))
  {
  }

  /**
    One packet of `tga_load_compressed_true_color`, written to `out[at..]`:
    the control byte, then either one pixel repeated (a run packet) or the
    packet's pixels one by one (a raw packet). A packet producing more than
    the `need` pixels still missing is rejected (corrected behaviour).
  */
  method LoadPacket(dec: Decoder, src: Layout, out: array<Pixel>, at: nat, need: nat, to: Layout)
    returns (o: Outcome, count: nat, ghost pk: Packet)
    requires dec.Valid() && at + need <= out.Length
    modifies dec, out
    ensures dec.Valid()
    ensures var r := ReadPacket(dec.mem, old(dec.offset), src.Size(), need);
      (r.Err? ==> o == Fail(r.error)) &&
      (r.Ok? ==> (o == Pass && pk == r.value && count == |pk.sources| && dec.offset == pk.next &&
        out[at..at + count] == Render(dec.mem, pk.sources, src, to)))
    ensures out[..at] == old(out[..at])
  {
    pk := Packet([], 0);
    ghost var cur := dec.offset;
    var ps := src.Size();
    var head := dec.Read(1);
    if head.Err? {
      return Fail(Underflow), 0, pk;
    }
    var control := head.value[0];
    count := PacketCount(control);
    if count > need {
      return Fail(Rejected), 0, pk;
    }
    if IsRunPacket(control) {
      o := LoadRun(dec, src, out, at, count, to);
      pk := Packet(Repeat(cur + 1, count), cur + 1 + ps);
    } else {
      o := LoadRaw(dec, src, out, at, count, to);
      pk := Packet(Consecutive(cur + 1, ps, count), IndexOffset(cur + 1, count, ps));
    }
  }

  /**
    `tga_load_compressed_true_color`: packets read through the cursor until
    `size` pixels are in `out[0..size)`.
  */
  method LoadRle(dec: Decoder, src: Layout, out: array<Pixel>, size: nat, to: Layout) returns (o: Outcome)
    requires dec.Valid() && out.Length == size
    modifies dec, out
    ensures dec.Valid()
    ensures var r := Rle(dec.mem, old(dec.offset), src.Size(), size);
      match r
      case Err(e) => o == Fail(e)
      case Ok(sources) =>
        o == Pass &&
        Within(sources, src.Size(), |dec.mem|) && out[..] == Render(dec.mem, sources, src, to)
  {
    ghost var whole := Rle(dec.mem, dec.offset, src.Size(), size);
    ghost var sources: seq<nat> := [];
    var ps := src.Size();
    var i := 0;
    PrependNil(whole);
    while i < size
      invariant dec.Valid() && 0 <= i <= size && |sources| == i
      invariant whole == Prepend(sources, Rle(dec.mem, dec.offset, ps, size - i))
      invariant Within(sources, ps, |dec.mem|) && out[..i] == Render(dec.mem, sources, src, to)
    {
      var r, count;
      r, count, sources := LoadRlePacket(dec, src, out, i, size, to, whole, sources);
      if r.Fail? {
        return r;
      }
      i := i + count;
    }
    PrependDone(sources);
    assert out[..] == out[..size];
    return Pass;
  }

  /**
    One pass of that loop: the next packet appended to the `i` pixels decoded
    so far, or the error that ends the whole decode.
  */
  method LoadRlePacket(dec: Decoder, src: Layout, out: array<Pixel>, i: nat, size: nat, to: Layout,
                       ghost whole: Result<seq<nat>>, ghost sources: seq<nat>)
    returns (o: Outcome, count: nat, ghost sources': seq<nat>)
    requires dec.Valid() && out.Length == size && i < size && |sources| == i
    requires whole == Prepend(sources, Rle(dec.mem, dec.offset, src.Size(), size - i))
    requires Within(sources, src.Size(), |dec.mem|) && out[..i] == Render(dec.mem, sources, src, to)
    modifies dec, out
    ensures dec.Valid()
    ensures o.Fail? ==> whole == Err(o.error)
    ensures o.Pass? ==>
      0 < count <= size - i && |sources'| == i + count &&
      whole == Prepend(sources', Rle(dec.mem, dec.offset, src.Size(), size - (i + count))) &&
      Within(sources', src.Size(), |dec.mem|) && out[..i + count] == Render(dec.mem, sources', src, to)
  {
    ghost var cur, rest := dec.offset, size - i;
    var ps := src.Size();
    ghost var pk;
    o, count, pk := LoadPacket(dec, src, out, i, size - i, to);
    if o.Fail? {
      RleStop(dec.mem, cur, ps, rest);
      return o, count, sources;
    }
    sources' := sources + pk.sources;
    PacketAppended(dec.mem, whole, sources, cur, rest, pk, src, to, out, i, count, dec.offset, size, sources');
  }

  /** The account of the decode and the pixels written, both carried past one more packet. */
  lemma {:induction false} PacketAppended(data: seq<byte>, whole: Result<seq<nat>>, sources: seq<nat>, off: nat, n: nat,
                                          p: Packet, src: Layout, to: Layout, out: array<Pixel>,
                                          i: nat, count: nat, next: nat, size: nat, sources': seq<nat>)
    requires off <= |data| && n > 0 && ReadPacket(data, off, src.Size(), n) == Ok(p)
    requires |sources| == i && n == size - i && count == |p.sources| && next == p.next && sources' == sources + p.sources
    requires whole == Prepend(sources, Rle(data, off, src.Size(), n))
    requires Within(sources, src.Size(), |data|) && i + n <= out.Length
    requires out[..i] == Render(data, sources, src, to)
    requires out[i..i + count] == Render(data, p.sources, src, to)
    ensures 0 < count <= size - i && |sources'| == i + count &&
      whole == Prepend(sources', Rle(data, next, src.Size(), size - (i + count))) &&
      Within(sources', src.Size(), |data|) && out[..i + count] == Render(data, sources', src, to)
  {
    RleAdvance(data, whole, sources, off, src.Size(), n, p, sources', next, size - (i + count));
    RenderedAppend(data, sources, p.sources, src, to, out);
  }

  /** The pixels of a packet written after those of the packets before it. */
  lemma {:induction false} RenderedAppend(data: seq<byte>, done: seq<nat>, q: seq<nat>, src: Layout, to: Layout, out: array<Pixel>)
    requires Within(done, src.Size(), |data|) && Within(q, src.Size(), |data|)
    requires |done| + |q| <= out.Length
    requires out[..|done|] == Render(data, done, src, to)
    requires out[|done|..|done| + |q|] == Render(data, q, src, to)
    ensures Within(done + q, src.Size(), |data|)
    ensures out[..|done| + |q|] == Render(data, done + q, src, to)
  {
    RenderAppend(data, done, q, src, to);
    assert out[..|done| + |q|] == out[..|done|] + out[|done|..|done| + |q|];
  }

  /**
    `tga_load_uncompressed_true_color`: a view of the `size` stored pixels at
    the cursor, the cursor moved past them, and all of them cast into
    `out[0..size)`. A skip past the readable bytes throws, after which
    nothing is read; the model requires the bytes instead, which the only
    caller checks (`datasize >= imgsize`) before it calls.
  */
  method LoadUncompressed(dec: Decoder, src: Layout, out: array<Pixel>, size: nat, to: Layout)
    requires dec.Valid() && out.Length == size && src != to
    requires IndexOffset(0, size, src.Size()) <= dec.GetReadable()
    modifies dec, out
    ensures dec.Valid() && dec.offset == IndexOffset(old(dec.offset), size, src.Size())
    ensures out[..] == Render(dec.mem, Consecutive(old(dec.offset), src.Size(), size), src, to)
  {
    ghost var off := dec.offset;
    var ps := src.Size();
    var view := dec.Peek();
    var skipped := dec.ProceedReading(IndexOffset(0, size, ps));
    var from := Stored(view, Consecutive(0, ps, size), src);
    PixelConvertRange(from, src, out, to, size);
    UncompressedView(dec.mem, off, ps, size, src, to, out[..]);
  }

  lemma {:induction false} UncompressedView(data: seq<byte>, off: nat, ps: nat, size: nat, src: Layout, to: Layout, s: seq<Pixel>)
    requires ps == src.Size() && off <= |data| && IndexOffset(off, size, ps) <= |data| && |s| == size
    requires forall k :: 0 <= k < size ==>
      s[k] == PixelCast(to, Stored(data[off..], Consecutive(0, ps, size), src)[k])
    ensures s == Render(data, Consecutive(off, ps, size), src, to)
  {
    var offsets := Consecutive(off, ps, size);
    forall k | 0 <= k < size
      ensures s[k] == Render(data, offsets, src, to)[k]
    {
      IndexOffsetBound(0, k, size, ps);
      StoredAtSuffix(data, off, IndexOffset(0, k, ps), src);
      RenderAt(data, offsets, src, to, k);
    }
  }

  /** A packet that cannot be read ends the whole decode with its error. */
  lemma {:induction false} RleStop(data: seq<byte>, off: nat, ps: nat, n: nat)
    requires off <= |data| && n > 0 && ReadPacket(data, off, ps, n).Err?
    ensures Rle(data, off, ps, n) == Err(ReadPacket(data, off, ps, n).error)
  {
  }

  /** A packet read whole is followed by the decode of the pixels it leaves missing. */
  lemma {:induction false} RleStep(data: seq<byte>, off: nat, ps: nat, n: nat, p: Packet)
    requires off <= |data| && n > 0 && ReadPacket(data, off, ps, n) == Ok(p)
    ensures Rle(data, off, ps, n) == Prepend(p.sources, Rle(data, p.next, ps, n - |p.sources|))
    ensures Rle(data, off, ps, n).Ok? ==> RleEnd(data, off, ps, n) == RleEnd(data, p.next, ps, n - |p.sources|)
  {
  }

  /** The loop's account of the decode so far, carried past one more packet. */
  lemma {:induction false} RleAdvance(data: seq<byte>, whole: Result<seq<nat>>, sources: seq<nat>,
                   off: nat, ps: nat, n: nat, p: Packet, sources': seq<nat>, next: nat, n': nat)
    requires off <= |data| && n > 0 && ReadPacket(data, off, ps, n) == Ok(p)
    requires whole == Prepend(sources, Rle(data, off, ps, n))
    requires sources' == sources + p.sources && next == p.next && n' == n - |p.sources|
    ensures next <= |data|
    ensures whole == Prepend(sources', Rle(data, next, ps, n'))
  {
    RleStep(data, off, ps, n, p);
    PrependChain(whole, sources, Rle(data, off, ps, n), p.sources, Rle(data, next, ps, n'), sources');
  }

  /** `pxto->from(decoder.read<pixelfrom>())`: the next stored pixel, cast to `to`. */
  method ReadPixel(dec: Decoder, src: Layout, to: Layout) returns (r: Result<Pixel>)
    requires dec.Valid()
    modifies dec
    ensures dec.Valid()
    ensures |dec.mem| - old(dec.offset) < src.Size() ==> r == Err(Underflow) && dec.offset == old(dec.offset)
    ensures |dec.mem| - old(dec.offset) >= src.Size() ==>
      dec.offset == old(dec.offset) + src.Size() &&
      r == Ok(PixelCast(to, StoredAt(dec.mem, old(dec.offset), src)))
  {
    var px := dec.Read(src.Size());
    if px.Err? {
      return Err(Underflow);
    }
    r := Ok(PixelCast(to, FromBytes(src, px.value)));
  }

  /** A run packet's body: one stored pixel, cast and written `count` times. */
  method LoadRun(dec: Decoder, src: Layout, out: array<Pixel>, at: nat, count: nat, to: Layout)
    returns (o: Outcome)
    requires dec.Valid() && at + count <= out.Length
    modifies dec, out
    ensures dec.Valid()
    ensures |dec.mem| - old(dec.offset) < src.Size() ==> o == Fail(Underflow)
    ensures |dec.mem| - old(dec.offset) >= src.Size() ==>
      o == Pass && dec.offset == old(dec.offset) + src.Size() &&
      out[at..at + count] == Render(dec.mem, Repeat(old(dec.offset), count), src, to)
    ensures out[..at] == old(out[..at])
  {
    ghost var cur := dec.offset;
    var px := ReadPixel(dec, src, to);
    if px.Err? {
      return Fail(Underflow);
    }
    var p := px.value;
    var j := 0;
    while j < count
      modifies out
      invariant 0 <= j <= count
      invariant forall k :: at <= k < at + j ==> out[k] == p
      invariant forall k :: 0 <= k < at ==> out[k] == old(out[k])
    {
      out[at + j] := p;
      j := j + 1;
    }
    RunRendered(dec.mem, cur, count, src, to, out, at, p);
    return Pass;
  }

  /** `count` copies of one cast pixel are the rendering of `count` copies of its offset. */
  lemma {:induction false} RunRendered(data: seq<byte>, pos: nat, count: nat, src: Layout, to: Layout,
                    out: array<Pixel>, at: nat, p: Pixel)
    requires pos + src.Size() <= |data| && at + count <= out.Length
    requires p == PixelCast(to, StoredAt(data, pos, src))
    requires forall k :: at <= k < at + count ==> out[k] == p
    ensures Within(Repeat(pos, count), src.Size(), |data|)
    ensures out[at..at + count] == Render(data, Repeat(pos, count), src, to)
  {
    var r := Repeat(pos, count);
    forall k | 0 <= k < count
      ensures out[at..at + count][k] == Render(data, r, src, to)[k]
    {
      RenderAt(data, r, src, to, k);
    }
  }

  /** A raw packet's body: `count` adjacent stored pixels, each cast and written. */
  method LoadRaw(dec: Decoder, src: Layout, out: array<Pixel>, at: nat, count: nat, to: Layout)
    returns (o: Outcome)
    requires dec.Valid() && at + count <= out.Length
    modifies dec, out
    ensures dec.Valid()
    ensures |dec.mem| - old(dec.offset) < IndexOffset(0, count, src.Size()) ==> o == Fail(Underflow)
    ensures |dec.mem| - old(dec.offset) >= IndexOffset(0, count, src.Size()) ==>
      o == Pass && dec.offset == IndexOffset(old(dec.offset), count, src.Size()) &&
      out[at..at + count] == Render(dec.mem, Consecutive(old(dec.offset), src.Size(), count), src, to)
    ensures out[..at] == old(out[..at])
  {
    ghost var cur := dec.offset;
    var ps := src.Size();
    var j := 0;
    while j < count
      invariant 0 <= j <= count && dec.Valid()
      invariant dec.offset == IndexOffset(cur, j, ps) <= |dec.mem|
      invariant Within(Consecutive(cur, ps, j), ps, |dec.mem|)
      invariant out[at..at + j] == Render(dec.mem, Consecutive(cur, ps, j), src, to)
      invariant forall k :: 0 <= k < at ==> out[k] == old(out[k])
    {
      var px := ReadPixel(dec, src, to);
      if px.Err? {
        IndexOffsetBound(cur, j, count, ps);
        return Fail(Underflow);
      }
      ghost var prev := out[at..at + j];
      out[at + j] := px.value;
      assert out[at..at + j] == prev;
      ConsecutiveSnoc(cur, ps, j);
      RenderedSnoc(dec.mem, Consecutive(cur, ps, j), IndexOffset(cur, j, ps), src, to, out, at);
      MulSucc(j, ps);
      j := j + 1;
    }
    return Pass;
  }

  // ---------------------------------------------------------------------
  // The whole reader

  /**
    `tga_load_memory` from the allocation of `temp_pixel` on: `pixelcount`
    value-initialised pixels, then the reader selected by `image_type`.
    `colormap` is the colour map peeked at `cm`, and the cursor is at the
    pixel data.
  */
  method LoadBody(dec: Decoder, h: Header, colormap: seq<byte>, ghost cm: nat, datasize: nat, to: Layout)
    returns (r: Result<seq<Pixel>>)
    requires dec.Valid() && (PixelSize(h) == 3 || PixelSize(h) == 4)
    requires cm + ColormapSize(h) <= |dec.mem| && colormap == dec.mem[cm..cm + ColormapSize(h)]
    requires dec.offset == cm + (if h.colormapType == 1 then ColormapSize(h) else 0)
    requires datasize == |dec.mem| - cm - ColormapSize(h)
    requires to != BGR24 && to != BGRA32
    modifies dec
    ensures r == DecodeBody(dec.mem, h, cm, old(dec.offset), to)
  {
    var count := PixelCount(h);
    var pixels := new Pixel[count](_ => Zero(to));
    if h.imageType == UncompressedMapped.Code() {
      r := LoadMappedBody(dec, h, colormap, cm, pixels, to);
    } else if h.imageType == UncompressedRgb.Code() {
      r := LoadRgbBody(dec, h, datasize, pixels, to);
    } else if h.imageType == RleRgb.Code() {
      r := LoadRleBody(dec, h, pixels, to);
    } else {
      r := Err(Rejected);
    }
  }

  /** The `TGA_UNCOMPRESSED_MAPPED` case of the `switch`. */
  method LoadMappedBody(dec: Decoder, h: Header, colormap: seq<byte>, ghost cm: nat,
                        pixels: array<Pixel>, to: Layout) returns (r: Result<seq<Pixel>>)
    requires dec.Valid() && (PixelSize(h) == 3 || PixelSize(h) == 4)
    requires cm + ColormapSize(h) <= |dec.mem| && colormap == dec.mem[cm..cm + ColormapSize(h)]
    requires pixels.Length == PixelCount(h) && forall k :: 0 <= k < pixels.Length ==> pixels[k] == Zero(to)
    modifies dec, pixels
    ensures r == MappedBody(dec.mem, h, cm, old(dec.offset), to)
  {
    var ps := PixelSize(h);
    if h.bits == 8 || h.bits == 16 {
      ColormapHoldsEntries(h);
      var o := LoadPaletted(dec, colormap, DiskLayout(ps), h.bits / 8, Entries(h), pixels, pixels.Length, to);
      if o.Fail? {
        return Err(o.error);
      }
    } else {
      assert pixels[..] == seq(pixels.Length, _ => Zero(to));
    }
    return Ok(pixels[..]);
  }

  /** The `TGA_UNCOMPRESSED_RGB` case of the `switch`. */
  method LoadRgbBody(dec: Decoder, h: Header, datasize: nat, pixels: array<Pixel>, to: Layout)
    returns (r: Result<seq<Pixel>>)
    requires dec.Valid() && (PixelSize(h) == 3 || PixelSize(h) == 4)
    requires datasize == |dec.mem| - dec.offset && pixels.Length == PixelCount(h)
    requires to != BGR24 && to != BGRA32
    modifies dec, pixels
    ensures r == RgbBody(dec.mem, h, old(dec.offset), to)
  {
    var ps := PixelSize(h);
    if datasize < IndexOffset(0, pixels.Length, ps) {
      return Err(Rejected);
    }
    LoadUncompressed(dec, DiskLayout(ps), pixels, pixels.Length, to);
    return Ok(pixels[..]);
  }

  /** The `TGA_RLE_RBG` case of the `switch`. */
  method LoadRleBody(dec: Decoder, h: Header, pixels: array<Pixel>, to: Layout)
    returns (r: Result<seq<Pixel>>)
    requires dec.Valid()
    requires pixels.Length == PixelCount(h) && forall k :: 0 <= k < pixels.Length ==> pixels[k] == Zero(to)
    modifies dec, pixels
    ensures r == RleBody(dec.mem, h, old(dec.offset), to)
  {
    if h.bits == 24 || h.bits == 32 {
      var o := LoadRle(dec, DiskLayout(h.bits / 8), pixels, pixels.Length, to);
      if o.Fail? {
        return Err(o.error);
      }
    } else {
      assert pixels[..] == seq(pixels.Length, _ => Zero(to));
    }
    return Ok(pixels[..]);
  }

  /**
    `tga_load_memory<pixel>(data, size, ...)`: the header and the id skipped,
    then `LoadImage`. `false` and a `decoder` exception are both an `Err`;
    the result is what `TgaDecode` says.
  */
  method TgaLoadMemory(data: seq<byte>, to: Layout) returns (r: Result<TgaImage>)
    requires to == RGB24 || to == RGBA32
    ensures r == TgaDecode(data, to)
  {
    var dec := new Decoder.Create(data);
    var head := dec.Read(HeaderSize);
    if head.Err? {
      return Err(head.error);
    }
    assert head.value == data[..HeaderSize];
    var h := ParseHeader(head.value);
    if h.idlen != 0 {
      var skipped := dec.ProceedReading(h.idlen);
      if skipped.Fail? {
        return Err(skipped.error);
      }
    }
    r := LoadImage(dec, h, to);
  }

  /**
    `tga_load_memory` from the colour map on: the colour map peeked, checked
    and skipped, the pixel-size check, and the body.
  */
  method LoadImage(dec: Decoder, h: Header, to: Layout) returns (r: Result<TgaImage>)
    requires dec.Valid() && dec.offset == HeaderSize + h.idlen
    requires to == RGB24 || to == RGBA32
    modifies dec
    ensures r == DecodeImage(dec.mem, h, to)
  {
    ghost var cm := dec.offset;
    var cmSize := ColormapSize(h);
    var view := dec.Peek();
    if dec.GetReadable() < cmSize {
      return Err(Rejected);
    }
    var count := PixelCount(h);
    var ps := PixelSize(h);
    var datasize := dec.GetReadable() - cmSize;
    if h.colormapType == 1 {
      if h.bits != 8 && h.bits != 16 {
        return Err(Rejected);
      }
      if h.bits * count < datasize {
        return Err(Rejected);
      }
      var skipped := dec.ProceedReading(cmSize);
    }
    if ps != 3 && ps != 4 {
      return Err(Rejected);
    }
    assert view[..cmSize] == dec.mem[cm..cm + cmSize];
    assert dec.offset == DataStart(dec.mem, h);
    var body := LoadBody(dec, h, view[..cmSize], cm, datasize, to);
    if body.Err? {
      return Err(body.error);
    }
    return Ok(TgaImage(h.width, h.height, ps, body.value));
  }
}
