/**
  The 18-byte TGA file header (Fields 1 to 5 of the Truevision TGA File
  Format Specification 2.0), packed and little-endian, the image type codes,
  the colour-map and pixel geometry the reader derives from it, and the
  header the writer builds for an image (`detect_header`).
*/
module TgaHeader {
  import opened Bytes
  import opened Pixels

  const HeaderSize: nat := 18

  /** `tga_header`, field for field. */
  datatype Header = Header(
    idlen: byte,
    colormapType: byte,
    imageType: byte,
    colormapOrigin: u16,
    colormapLen: u16,
    colormapEntrySize: byte,
    xo: u16,
    yo: u16,
    width: u16,
    height: u16,
    bits: byte,
    imagedesc: byte)

  /** `tga_type` */
  datatype TgaType = TgaNone | UncompressedMapped | UncompressedRgb | RleRgb {
    function Code(): (c: byte)
      ensures c in {0, 1, 2, 10}
    {
      match this
      case TgaNone => 0
      case UncompressedMapped => 1
      case UncompressedRgb => 2
      case RleRgb => 10
    }
  }

  /** `read<tga_header>()`: the packed struct reinterpreted from 18 bytes. */
  function ParseHeader(b: seq<byte>): (h: Header)
    requires |b| == HeaderSize
    ensures h.idlen == b[0] && h.colormapType == b[1] && h.imageType == b[2]
    ensures h.colormapLen == b[5] as int + 0x100 * (b[6] as int) && h.colormapEntrySize == b[7]
    ensures h.width == b[12] as int + 0x100 * (b[13] as int)
    ensures h.height == b[14] as int + 0x100 * (b[15] as int)
    ensures h.bits == b[16] && h.imagedesc == b[17]
  {
    Header(b[0], b[1], b[2], LE16(b, 3), LE16(b, 5), b[7],
           LE16(b, 8), LE16(b, 10), LE16(b, 12), LE16(b, 14), b[16], b[17])
  }

  /** The memory image of a header: what `write(header)` puts on disk. */
  function HeaderBytes(h: Header): (b: seq<byte>)
    ensures |b| == HeaderSize
  {
    [h.idlen, h.colormapType, h.imageType,
     h.colormapOrigin % 0x100, h.colormapOrigin / 0x100,
     h.colormapLen % 0x100, h.colormapLen / 0x100,
     h.colormapEntrySize,
     h.xo % 0x100, h.xo / 0x100, h.yo % 0x100, h.yo / 0x100,
     h.width % 0x100, h.width / 0x100, h.height % 0x100, h.height / 0x100,
     h.bits, h.imagedesc]
  }

  /** Parsing the memory image of a header gives the header back ... */
  lemma HeaderRoundTrip(h: Header)
    ensures ParseHeader(HeaderBytes(h)) == h
  {
    var b := HeaderBytes(h);
    assert LE16(b, 3) == h.colormapOrigin && LE16(b, 5) == h.colormapLen;
    assert LE16(b, 8) == h.xo && LE16(b, 10) == h.yo;
    assert LE16(b, 12) == h.width && LE16(b, 14) == h.height;
  }

  /** ... and every 18 bytes are the memory image of the header they parse to. */
  lemma HeaderBytesOfParse(b: seq<byte>)
    requires |b| == HeaderSize
    ensures HeaderBytes(ParseHeader(b)) == b
  {
    var e := HeaderBytes(ParseHeader(b));
    forall i | 0 <= i < HeaderSize ensures e[i] == b[i] {
    }
  }

  // ---------------------------------------------------------------------
  // Geometry derived from the header by the reader

  /** `colormap_element_size`: bytes per colour-map entry. */
  function ColormapElementSize(h: Header): nat { h.colormapEntrySize / 8 }

  /** `colormap_size`: bytes of colour map, present only when `colormap_type == 1`. */
  function ColormapSize(h: Header): nat {
    if h.colormapType == 1 then h.colormapLen * ColormapElementSize(h) else 0
  }

  /** `pixelcount` */
  function PixelCount(h: Header): nat { h.width * h.height }

  /**
    `pixelsize`: bytes per output pixel. The test is on `colormap_len`,
    not on `colormap_type`.
  */
  function PixelSize(h: Header): nat {
    if h.colormapLen == 0 then h.bits / 8 else ColormapElementSize(h)
  }

  /** The on-disk layout of a source pixel of `size` bytes. */
  function DiskLayout(size: nat): (l: Layout)
    requires size == 3 || size == 4
    ensures l.Size() == size && BgrCast(l) == l
  {
    if size == 3 then BGR24 else BGRA32
  }

  /**
    `detect_header<type>(source)`: the header written for an image of layout
    `l`. Width and height are truncated to 16 bits by `static_cast<uint16_t>`.
  */
  function DetectHeader(t: TgaType, l: Layout, width: nat, height: nat): (h: Header)
    ensures h.bits == (if l.Is24Bit() then 24 else 32)
    ensures h.imagedesc == (if l.Is24Bit() then 0 else 8)
    ensures h.colormapType == 0 && h.idlen == 0 && h.imageType == t.Code()
    ensures h.width == width % 0x1_0000 && h.height == height % 0x1_0000
    ensures h.colormapOrigin == 0 && h.colormapLen == 0 && h.colormapEntrySize == 0
    ensures h.xo == 0 && h.yo == 0
    ensures ColormapSize(h) == 0 && PixelSize(h) == l.Size()
  {
    Header(0, 0, t.Code(), 0, 0, 0, 0, 0, width % 0x1_0000, height % 0x1_0000,
           if l.Is24Bit() then 24 else 32, if l.Is24Bit() then 0 else 8)
  }
}
