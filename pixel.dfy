/**
  The pixel layer: four packed pixel layouts, the cast matrix between them,
  the comparison operators, the byte view, the hash, and batch conversion.
*/
module Pixels {
  import opened Bytes

  /** The four pixel structs, named by their channel order in memory. */
  datatype Layout = RGB24 | BGR24 | RGBA32 | BGRA32 {
    /** `pixel_is24bit` */
    predicate Is24Bit() { this == RGB24 || this == BGR24 }
    /** `pixel_is32bit` */
    predicate Is32Bit() { this == RGBA32 || this == BGRA32 }
    /** `sizeof` of the packed struct. */
    function Size(): (n: nat)
      ensures n == if Is24Bit() then 3 else 4
    {
      if Is24Bit() then 3 else 4
    }
  }

  /**
    One pixel. Each constructor lists its channels in the declaration order
    of the corresponding struct, which is also its byte order in memory.
  */
  datatype Pixel =
    | Pixel24Rgb(r: byte, g: byte, b: byte)
    | Pixel24Bgr(b: byte, g: byte, r: byte)
    | Pixel32Rgba(r: byte, g: byte, b: byte, a: byte)
    | Pixel32Bgra(b: byte, g: byte, r: byte, a: byte)
  {
    function LayoutOf(): Layout {
      match this
      case Pixel24Rgb(_, _, _) => RGB24
      case Pixel24Bgr(_, _, _) => BGR24
      case Pixel32Rgba(_, _, _, _) => RGBA32
      case Pixel32Bgra(_, _, _, _) => BGRA32
    }
    predicate Is24Bit() { Pixel24Rgb? || Pixel24Bgr? }
    predicate Is32Bit() { Pixel32Rgba? || Pixel32Bgra? }
  }

  /** The pixel of layout `l` with the given channels (`a` is dropped by a 24-bit layout). */
  function Make(l: Layout, r: byte, g: byte, b: byte, a: byte): (p: Pixel)
    ensures p.LayoutOf() == l && p.r == r && p.g == g && p.b == b
    ensures l.Is32Bit() ==> p.Is32Bit() && p.a == a
    ensures l.Is24Bit() == p.Is24Bit()
  {
    match l
    case RGB24 => Pixel24Rgb(r, g, b)
    case BGR24 => Pixel24Bgr(b, g, r)
    case RGBA32 => Pixel32Rgba(r, g, b, a)
    case BGRA32 => Pixel32Bgra(b, g, r, a)
  }

  /** A value-initialised pixel (`pixel{}`): every channel zero. */
  function Zero(l: Layout): (p: Pixel)
    ensures p.LayoutOf() == l && p.r == 0 && p.g == 0 && p.b == 0
    ensures p.Is32Bit() ==> p.a == 0
  {
    Make(l, 0, 0, 0, 0)
  }

  // ---------------------------------------------------------------------
  // Comparison operators

  /** `pixel_less`: true as soon as ANY present channel of `p` is below that of `q`. */
  predicate PixelLess(p: Pixel, q: Pixel)
    requires p.LayoutOf() == q.LayoutOf()
  {
    if p.r < q.r then true
    else if p.g < q.g then true
    else if p.b < q.b then true
    else if p.Is32Bit() && p.a < q.a then true
    else false
  }

  /** `pixel_equal`: every present channel is equal. */
  predicate PixelEqual(p: Pixel, q: Pixel)
    requires p.LayoutOf() == q.LayoutOf()
  {
    if p.r != q.r then false
    else if p.g != q.g then false
    else if p.b != q.b then false
    else if p.Is32Bit() && p.a != q.a then false
    else true
  }

  /** `pixel_greater`: neither less nor equal. */
  predicate PixelGreater(p: Pixel, q: Pixel)
    requires p.LayoutOf() == q.LayoutOf()
  {
    !PixelLess(p, q) && !PixelEqual(p, q)
  }

  /** `pixel_equal` is exactly equality of pixels of the same layout. */
  lemma PixelEqualIsEquality(p: Pixel, q: Pixel)
    requires p.LayoutOf() == q.LayoutOf()
    ensures PixelEqual(p, q) <==> p == q
  {
  }

  /** `pixel_less` is irreflexive. */
  lemma PixelLessIrreflexive(p: Pixel)
    ensures !PixelLess(p, p)
  {
  }

  /**
    `pixel_less` is not an ordering: two pixels can each be "less" than the
    other, because the channels are compared independently rather than
    lexicographically.
  */
  lemma PixelLessNotAsymmetric()
    ensures PixelLess(Pixel24Rgb(1, 0, 0), Pixel24Rgb(0, 1, 0))
    ensures PixelLess(Pixel24Rgb(0, 1, 0), Pixel24Rgb(1, 0, 0))
  {
  }

  /** Distinct pixels of one layout are always related one way or the other. */
  lemma PixelLessConnected(p: Pixel, q: Pixel)
    requires p.LayoutOf() == q.LayoutOf() && p != q
    ensures PixelLess(p, q) || PixelLess(q, p)
  {
  }

  /**
    `pixel_greater` holds exactly when every channel of `p` is at least that
    of `q` and the two pixels differ; in that case `q` is "less" than `p`.
  */
  lemma PixelGreaterIsDominance(p: Pixel, q: Pixel)
    requires p.LayoutOf() == q.LayoutOf()
    ensures PixelGreater(p, q) <==>
      p != q && p.r >= q.r && p.g >= q.g && p.b >= q.b && (p.Is32Bit() ==> p.a >= q.a)
    ensures PixelGreater(p, q) ==> PixelLess(q, p)
  {
  }

  // ---------------------------------------------------------------------
  // Casts (namespace detail, then pixel_cast)

  /** `detail::pixel32to32`: between the two 32-bit layouts, every channel is copied. */
  function Pixel32To32(from: Pixel, to: Layout): (p: Pixel)
    requires from.Is32Bit() && to.Is32Bit() && from.LayoutOf() != to
    ensures p.LayoutOf() == to && p.Is32Bit()
    ensures p.r == from.r && p.g == from.g && p.b == from.b && p.a == from.a
  {
    Make(to, from.r, from.g, from.b, from.a)
  }

  /** `detail::pixel24to24`: between the two 24-bit layouts, every channel is copied. */
  function Pixel24To24(from: Pixel, to: Layout): (p: Pixel)
    requires from.Is24Bit() && to.Is24Bit() && from.LayoutOf() != to
    ensures p.LayoutOf() == to && p.Is24Bit()
    ensures p.r == from.r && p.g == from.g && p.b == from.b
  {
    Make(to, from.r, from.g, from.b, 0)
  }

  /** `detail::pixel24to32`: widening copies r, g, b and makes the pixel opaque. */
  function Pixel24To32(from: Pixel, to: Layout): (p: Pixel)
    requires from.Is24Bit() && to.Is32Bit()
    ensures p.LayoutOf() == to && p.Is32Bit()
    ensures p.r == from.r && p.g == from.g && p.b == from.b && p.a == 255
  {
    Make(to, from.r, from.g, from.b, 255)
  }

  /** `detail::pixel32to24`: narrowing copies r, g, b and drops alpha. */
  function Pixel32To24(from: Pixel, to: Layout): (p: Pixel)
    requires from.Is32Bit() && to.Is24Bit()
    ensures p.LayoutOf() == to && p.Is24Bit()
    ensures p.r == from.r && p.g == from.g && p.b == from.b
  {
    Make(to, from.r, from.g, from.b, 0)
  }

  /**
    `pixel_cast(from, to&)` between two different layouts; the `from`
    member of every pixel struct delegates to it.
  */
  function PixelCastInto(from: Pixel, to: Layout): (p: Pixel)
    requires from.LayoutOf() != to
    ensures p.LayoutOf() == to
    ensures p.r == from.r && p.g == from.g && p.b == from.b
    ensures to.Is32Bit() ==> p.Is32Bit() && p.a == (if from.Is32Bit() then from.a else 255)
  {
    if from.Is24Bit() && to.Is24Bit() then Pixel24To24(from, to)
    else if from.Is32Bit() && to.Is32Bit() then Pixel32To32(from, to)
    else if from.Is24Bit() && to.Is32Bit() then Pixel24To32(from, to)
    else Pixel32To24(from, to)
  }

  /** `pixel_cast<to>(from)`: the identity when the layouts agree. */
  function PixelCast(to: Layout, from: Pixel): (p: Pixel)
    ensures p.LayoutOf() == to
    ensures p.r == from.r && p.g == from.g && p.b == from.b
    ensures to.Is32Bit() ==> p.Is32Bit() && p.a == (if from.Is32Bit() then from.a else 255)
    ensures from.LayoutOf() == to ==> p == from
  {
    if from.LayoutOf() == to then from else PixelCastInto(from, to)
  }

  /** A pixel is determined by its layout and its channels. */
  lemma PixelExtensional(p: Pixel, q: Pixel)
    requires p.LayoutOf() == q.LayoutOf() && p.r == q.r && p.g == q.g && p.b == q.b
    requires p.Is32Bit() ==> p.a == q.a
    ensures p == q
  {
  }

  /**
    Casting through an intermediate layout is the direct cast, except that
    a 24-bit intermediate between two 32-bit layouts resets alpha to 255.
    In particular 24->32->24 and rgba->bgra->rgba give the original pixel back.
  */
  lemma {:induction false} CastThrough(from: Pixel, mid: Layout, to: Layout)
    ensures !(from.Is32Bit() && mid.Is24Bit() && to.Is32Bit()) ==>
      PixelCast(to, PixelCast(mid, from)) == PixelCast(to, from)
    ensures from.Is32Bit() && mid.Is24Bit() && to.Is32Bit() ==>
      PixelCast(to, PixelCast(mid, from)) == Make(to, from.r, from.g, from.b, 255)
  {
    var p, q := PixelCast(to, PixelCast(mid, from)), PixelCast(to, from);
    if !(from.Is32Bit() && mid.Is24Bit() && to.Is32Bit()) {
      PixelExtensional(p, q);
    } else {
      PixelExtensional(p, Make(to, from.r, from.g, from.b, 255));
    }
  }

  /** Widening then narrowing back, or swapping byte order twice, is the identity. */
  lemma CastRoundTrip(p: Pixel, via: Layout)
    requires p.Is24Bit() || via.Is32Bit()
    ensures PixelCast(p.LayoutOf(), PixelCast(via, p)) == p
  {
    CastThrough(p, via, p.LayoutOf());
  }

  /** `pixel_bgr_cast`: the BGR layout with the same depth. */
  function BgrCast(l: Layout): (b: Layout)
    ensures b.Is24Bit() == l.Is24Bit()
    ensures b == BGR24 || b == BGRA32
    ensures (l == BGR24 || l == BGRA32) ==> b == l
  {
    match l
    case RGB24 => BGR24
    case BGR24 => BGR24
    case RGBA32 => BGRA32
    case BGRA32 => BGRA32
  }

  // ---------------------------------------------------------------------
  // Byte view and hash

  /** `pixel_bytes_view`: the fields in declaration order. */
  function BytesView(p: Pixel): (v: seq<byte>)
    ensures |v| == p.LayoutOf().Size()
    ensures p.Pixel24Rgb? || p.Pixel32Rgba? ==> v[0] == p.r && v[1] == p.g && v[2] == p.b
    ensures p.Pixel24Bgr? || p.Pixel32Bgra? ==> v[0] == p.b && v[1] == p.g && v[2] == p.r
    ensures p.Is32Bit() ==> v[3] == p.a
  {
    match p
    case Pixel24Rgb(r, g, b) => [r, g, b]
    case Pixel24Bgr(b, g, r) => [b, g, r]
    case Pixel32Rgba(r, g, b, a) => [r, g, b, a]
    case Pixel32Bgra(b, g, r, a) => [b, g, r, a]
  }

  /** Reinterpreting `sizeof(pixel)` bytes as a pixel of layout `l`. */
  function FromBytes(l: Layout, v: seq<byte>): (p: Pixel)
    requires |v| == l.Size()
    ensures p.LayoutOf() == l
  {
    match l
    case RGB24 => Pixel24Rgb(v[0], v[1], v[2])
    case BGR24 => Pixel24Bgr(v[0], v[1], v[2])
    case RGBA32 => Pixel32Rgba(v[0], v[1], v[2], v[3])
    case BGRA32 => Pixel32Bgra(v[0], v[1], v[2], v[3])
  }

  /** The byte view and the reinterpretation are inverse to each other. */
  lemma BytesViewRoundTrip(p: Pixel, v: seq<byte>, l: Layout)
    requires |v| == l.Size()
    ensures FromBytes(p.LayoutOf(), BytesView(p)) == p
    ensures BytesView(FromBytes(l, v)) == v
  {
  }

  /**
    `std::hash<pixel>`: the pixel cast to `pixel32rgba`, read as a
    little-endian 32-bit word.
  */
  function PixelHash(p: Pixel): (h: u32)
    ensures h == p.r as int + 0x100 * p.g as int + 0x1_0000 * p.b as int
                 + 0x100_0000 * (if p.Is32Bit() then p.a else 255) as int
  {
    LE32(BytesView(PixelCast(RGBA32, p)), 0)
  }

  /** Base-256 digits are unique. */
  lemma Base256Unique(lo1: byte, hi1: int, lo2: byte, hi2: int)
    requires lo1 + 0x100 * hi1 == lo2 + 0x100 * hi2
    ensures lo1 == lo2 && hi1 == hi2
  {
  }

  /** Two pixels of one layout hash alike exactly when they are `pixel_equal`. */
  lemma HashEqualIff(p: Pixel, q: Pixel)
    requires p.LayoutOf() == q.LayoutOf()
    ensures PixelHash(p) == PixelHash(q) <==> PixelEqual(p, q)
  {
    if PixelHash(p) == PixelHash(q) {
      var pa: byte := if p.Is32Bit() then p.a else 255;
      var qa: byte := if q.Is32Bit() then q.a else 255;
      Base256Unique(p.r, p.g as int + 0x100 * p.b as int + 0x1_0000 * pa as int,
                    q.r, q.g as int + 0x100 * q.b as int + 0x1_0000 * qa as int);
      Base256Unique(p.g, p.b as int + 0x100 * pa as int, q.g, q.b as int + 0x100 * qa as int);
      Base256Unique(p.b, pa, q.b, qa);
    }
  }

  // ---------------------------------------------------------------------
  // Batch conversion (`pixel_convert` overloads)

  /** All pixels of `s` have layout `l`: the element type of a `std::vector<pixel>`. */
  predicate AllOf(s: seq<Pixel>, l: Layout) {
    forall i :: 0 <= i < |s| ==> s[i].LayoutOf() == l
  }

  /** `pixel_convert<to>(from)`: a new vector whose i-th element is the cast of `from[i]`. */
  method PixelConvert(from: seq<Pixel>, src: Layout, to: Layout) returns (dest: seq<Pixel>)
    requires AllOf(from, src) && src != to
    ensures |dest| == |from|
    ensures forall i :: 0 <= i < |from| ==> dest[i] == PixelCast(to, from[i])
    ensures AllOf(dest, to)
  {
    var a := new Pixel[|from|](_ => Zero(to));
    var i := 0;
    while i < |from|
      invariant 0 <= i <= |from|
      invariant forall k :: 0 <= k < i ==> a[k] == PixelCast(to, from[k])
    {
      a[i] := PixelCast(to, from[i]);
      i := i + 1;
    }
    dest := a[..];
  }

  /**
    `pixel_convert(from, to&)`: `to` is resized only when its length
    differs, then every element is overwritten with the cast.
  */
  method PixelConvertResize(from: seq<Pixel>, src: Layout, to: array<Pixel>, l: Layout)
    returns (dest: array<Pixel>)
    requires AllOf(from, src) && src != l
    modifies to
    ensures dest.Length == |from|
    ensures forall i :: 0 <= i < |from| ==> dest[i] == PixelCast(l, from[i])
    ensures to.Length == |from| ==> dest == to
    ensures to.Length != |from| ==> fresh(dest) && to[..] == old(to[..])
  {
    if to.Length != |from| {
      dest := new Pixel[|from|](_ => Zero(l));
    } else {
      dest := to;
    }
    var i := 0;
    while i < |from|
      invariant 0 <= i <= |from|
      invariant forall k :: 0 <= k < i ==> dest[k] == PixelCast(l, from[k])
      invariant to.Length != |from| ==> to[..] == old(to[..])
    {
      dest[i] := PixelCast(l, from[i]);
      i := i + 1;
    }
  }

  /**
    `pixel_convert(from*, to*, pcount)`: the first `pcount` slots of `to`
    receive the casts of the first `pcount` source pixels; the rest of
    `to` is untouched.
  */
  method PixelConvertRange(from: seq<Pixel>, src: Layout, to: array<Pixel>, l: Layout, pcount: nat)
    requires AllOf(from, src) && src != l
    requires pcount <= |from| && pcount <= to.Length
    modifies to
    ensures forall i :: 0 <= i < pcount ==> to[i] == PixelCast(l, from[i])
    ensures forall i :: pcount <= i < to.Length ==> to[i] == old(to[i])
  {
    var i := 0;
    while i < pcount
      invariant 0 <= i <= pcount
      invariant forall k :: 0 <= k < i ==> to[k] == PixelCast(l, from[k])
      invariant forall k :: i <= k < to.Length ==> to[k] == old(to[k])
    {
      to[i] := PixelCast(l, from[i]);
      i := i + 1;
    }
  }
}
