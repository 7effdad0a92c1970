/**
  The BMP reader of `bmp.hpp`: the 14-byte `BITMAPFILEHEADER` and the
  40-byte `BITMAPINFOHEADER` of the Microsoft bitmap format are read
  through the cursor and checked field by field, in a fixed order, each
  failing check throwing its own error. No pixel is ever extracted.
*/
module Bmp {
  import opened Bytes
  import opened Errors
  import opened ByteDecoder
  import opened ImageBuffer

  /** `sizeof(bitmap_file_header)` */
  const FileHeaderSize: nat := 14
  /** `sizeof(bitmap_info_header)` */
  const InfoHeaderSize: nat := 40
  /** The file header's `type`: the letters "BM" read as a little-endian `uint16_t`. */
  const BmSignature: nat := 19778

  /** `bitmap_file_header` */
  datatype FileHeader = FileHeader(fileType: u16, size: u32, reserved: u32, offbits: u32)

  /** `bitmap_info_header`; width, height and both resolutions are `int32_t`. */
  datatype InfoHeader = InfoHeader(
    ihsize: u32, width: int, height: int, planes: u16, bitcount: u16,
    compression: u32, compsize: u32, xppm: int, yppm: int, colorcount: u32, colorimp: u32)

  /** `read<bitmap_file_header>()`: the packed struct reinterpreted, little-endian. */
  function ParseFileHeader(b: seq<byte>): (h: FileHeader)
    requires |b| == FileHeaderSize
    ensures h.fileType == b[0] as int + 0x100 * (b[1] as int)
    ensures h.size == LE32(b, 2) && h.reserved == LE32(b, 6) && h.offbits == LE32(b, 10)
  {
    FileHeader(LE16(b, 0), LE32(b, 2), LE32(b, 6), LE32(b, 10))
  }

  /** `read<bitmap_info_header>()`: the packed struct reinterpreted, little-endian. */
  function ParseInfoHeader(b: seq<byte>): (h: InfoHeader)
    requires |b| == InfoHeaderSize
    ensures -0x8000_0000 <= h.width < 0x8000_0000 && -0x8000_0000 <= h.height < 0x8000_0000
    ensures (h.width < 0) == (b[7] >= 0x80) && (h.height < 0) == (b[11] >= 0x80)
    ensures h.planes == b[12] as int + 0x100 * (b[13] as int)
    ensures h.bitcount == b[14] as int + 0x100 * (b[15] as int)
    ensures h.width == if LE32(b, 4) < 0x8000_0000 then LE32(b, 4) else LE32(b, 4) - 0x1_0000_0000
    ensures h.height == if LE32(b, 8) < 0x8000_0000 then LE32(b, 8) else LE32(b, 8) - 0x1_0000_0000
    ensures h.compression == LE32(b, 16)
  {
    assert LE32(b, 4) / 0x1_0000 == LE16(b, 6);
    assert LE32(b, 8) / 0x1_0000 == LE16(b, 10);
    InfoHeader(LE32(b, 0), ToInt32(LE32(b, 4)), ToInt32(LE32(b, 8)), LE16(b, 12), LE16(b, 14),
               LE32(b, 16), LE32(b, 20), ToInt32(LE32(b, 24)), ToInt32(LE32(b, 28)),
               LE32(b, 32), LE32(b, 36))
  }

  /** The signature test accepts exactly the bytes 'B', 'M'. */
  lemma SignatureIsBM(b: seq<byte>)
    requires |b| == FileHeaderSize
    ensures ParseFileHeader(b).fileType == BmSignature <==> b[0] == 'B' as int && b[1] == 'M' as int
  {
  }

  /** `bmp_bitcount` */
  predicate KnownBitcount(bitcount: nat) {
    bitcount == 1 || bitcount == 4 || bitcount == 8 || bitcount == 16 || bitcount == 24 || bitcount == 32
  }

  /**
    The checks of `load_bitmap_from_memory` in source order, given the
    bytes still readable and the read offset after both headers. The first
    one that fails decides the error.
  */
  function Validate(f: FileHeader, i: InfoHeader, readable: nat, offset: nat): (o: Outcome)
    requires readable < 0x1_0000_0000_0000_0000
    ensures o.Fail? ==> o.error.InvalidHeader?
  {
    if f.fileType != BmSignature then Fail(InvalidHeader(BadType))
    else if f.reserved != 0 then Fail(InvalidHeader(BadReserved))
    // offbits - sizeof(file header) - sizeof(info header), in size_t
    else if SizeSub(SizeSub(f.offbits, FileHeaderSize), InfoHeaderSize) > readable then
      Fail(InvalidHeader(BadOffbits))
    else if f.size != readable + offset then Fail(InvalidHeader(BadSize))
    else if i.width <= 0 then Fail(InvalidHeader(BadWidth))
    else if i.height < 0 && i.compression != 0 then Fail(InvalidHeader(BadHeight))
    else if i.planes != 1 then Fail(InvalidHeader(BadPlanes))
    else if !KnownBitcount(i.bitcount) then Fail(InvalidHeader(BadBitcount))
    // BMP_UNCOMPRESSED_RGB = 0, BMP_UNCOMPRESSED_BITFIELDS = 1
    else if (i.bitcount == 16 || i.bitcount == 32) && i.compression != 0 && i.compression != 1 then
      Fail(InvalidHeader(BadCompression))
    // BMP_COMPRESSION_RGB = 0, BMP_COMPRESSION_RLE8 = 1, BMP_COMPRESSION_RLE4 = 2
    else if (i.bitcount == 1 || i.bitcount == 4 || i.bitcount == 8) &&
            i.compression != 0 && i.compression != 2 && i.compression != 1 then
      Fail(InvalidHeader(BadPalettedCompression))
    else Pass
  }

  // ---------------------------------------------------------------------
  // The checks one by one

  /** The position of each check in the chain. */
  function Rank(e: BmpFault): nat {
    match e
    case BadType => 0
    case BadReserved => 1
    case BadOffbits => 2
    case BadSize => 3
    case BadWidth => 4
    case BadHeight => 5
    case BadPlanes => 6
    case BadBitcount => 7
    case BadCompression => 8
    case BadPalettedCompression => 9
  }

  /**
    What each check refuses, stated without wrap-around: the pixel data
    must start at or after byte 54 and no later than the end of the input.
  */
  predicate Violates(e: BmpFault, f: FileHeader, i: InfoHeader, readable: nat, offset: nat) {
    match e
    case BadType => f.fileType != BmSignature
    case BadReserved => f.reserved != 0
    case BadOffbits => f.offbits < FileHeaderSize + InfoHeaderSize ||
                       f.offbits - (FileHeaderSize + InfoHeaderSize) > readable
    case BadSize => f.size != readable + offset
    case BadWidth => i.width <= 0
    case BadHeight => i.height < 0 && i.compression != 0
    case BadPlanes => i.planes != 1
    case BadBitcount => !KnownBitcount(i.bitcount)
    case BadCompression => (i.bitcount == 16 || i.bitcount == 32) && i.compression > 1
    case BadPalettedCompression => (i.bitcount == 1 || i.bitcount == 4 || i.bitcount == 8) && i.compression > 2
  }

  /**
    In `size_t`, `offbits - 14 - 40 > readable` says that the pixel data
    starts inside the headers or past the end of the input, as long as the
    input length itself is a `size_t`.
  */
  lemma OffbitsCheck(offbits: u32, readable: nat)
    requires readable + FileHeaderSize + InfoHeaderSize < 0x1_0000_0000_0000_0000
    ensures SizeSub(SizeSub(offbits, FileHeaderSize), InfoHeaderSize) > readable <==>
      offbits < FileHeaderSize + InfoHeaderSize || offbits - (FileHeaderSize + InfoHeaderSize) > readable
  {
  }

  /**
    A header is refused with fault `e` exactly when check `e` fails and every
    check before it passes.
  */
  lemma ValidateFirstFailure(f: FileHeader, i: InfoHeader, readable: nat, offset: nat, e: BmpFault)
    requires readable + FileHeaderSize + InfoHeaderSize < 0x1_0000_0000_0000_0000
    ensures Validate(f, i, readable, offset) == Fail(InvalidHeader(e)) <==>
      Violates(e, f, i, readable, offset) &&
      forall e' :: Rank(e') < Rank(e) ==> !Violates(e', f, i, readable, offset)
  {
    OffbitsCheck(f.offbits, readable);
    if Violates(e, f, i, readable, offset) && forall e' :: Rank(e') < Rank(e) ==> !Violates(e', f, i, readable, offset) {
      assert Rank(e) > 0 ==> !Violates(BadType, f, i, readable, offset);
      assert Rank(e) > 1 ==> !Violates(BadReserved, f, i, readable, offset);
      assert Rank(e) > 2 ==> !Violates(BadOffbits, f, i, readable, offset);
      assert Rank(e) > 3 ==> !Violates(BadSize, f, i, readable, offset);
      assert Rank(e) > 4 ==> !Violates(BadWidth, f, i, readable, offset);
      assert Rank(e) > 5 ==> !Violates(BadHeight, f, i, readable, offset);
      assert Rank(e) > 6 ==> !Violates(BadPlanes, f, i, readable, offset);
      assert Rank(e) > 7 ==> !Violates(BadBitcount, f, i, readable, offset);
      assert Rank(e) > 8 ==> !Violates(BadCompression, f, i, readable, offset);
      assert Rank(e) > 9 ==> !Violates(BadPalettedCompression, f, i, readable, offset);
    }
    if Validate(f, i, readable, offset) == Fail(InvalidHeader(e)) {
      match e
      case BadType =>
      case BadReserved =>
      case BadOffbits =>
      case BadSize =>
      case BadWidth =>
      case BadHeight =>
      case BadPlanes =>
      case BadBitcount =>
      case BadCompression =>
      case BadPalettedCompression =>
      forall e' | Rank(e') < Rank(e)
        ensures !Violates(e', f, i, readable, offset)
      {
        match e'
        case BadType =>
        case BadReserved =>
        case BadOffbits =>
        case BadSize =>
        case BadWidth =>
        case BadHeight =>
        case BadPlanes =>
        case BadBitcount =>
        case BadCompression =>
        case BadPalettedCompression =>
      }
    }
  }

  /** A header passes exactly when no check fails. */
  lemma ValidatePass(f: FileHeader, i: InfoHeader, readable: nat, offset: nat)
    requires readable + FileHeaderSize + InfoHeaderSize < 0x1_0000_0000_0000_0000
    ensures Validate(f, i, readable, offset) == Pass <==> forall e :: !Violates(e, f, i, readable, offset)
  {
    OffbitsCheck(f.offbits, readable);
    if forall e :: !Violates(e, f, i, readable, offset) {
      assert !Violates(BadType, f, i, readable, offset);
      assert !Violates(BadReserved, f, i, readable, offset);
      assert !Violates(BadOffbits, f, i, readable, offset);
      assert !Violates(BadSize, f, i, readable, offset);
      assert !Violates(BadWidth, f, i, readable, offset);
      assert !Violates(BadHeight, f, i, readable, offset);
      assert !Violates(BadPlanes, f, i, readable, offset);
      assert !Violates(BadBitcount, f, i, readable, offset);
      assert !Violates(BadCompression, f, i, readable, offset);
      assert !Violates(BadPalettedCompression, f, i, readable, offset);
    }
    if Validate(f, i, readable, offset) == Pass {
      forall e
        ensures !Violates(e, f, i, readable, offset)
      {
        match e
        case BadType =>
        case BadReserved =>
        case BadOffbits =>
        case BadSize =>
        case BadWidth =>
        case BadHeight =>
        case BadPlanes =>
        case BadBitcount =>
        case BadCompression =>
        case BadPalettedCompression =>
      }
    }
  }

  /**
    `offbits - 14 - 40` wraps around below 54 in `size_t`, so a pixel offset
    inside the headers is refused like one past the end.
  */
  lemma OffbitsInsideHeaders(f: FileHeader, i: InfoHeader, readable: nat, offset: nat)
    requires readable + FileHeaderSize + InfoHeaderSize < 0x1_0000_0000_0000_0000
    requires f.fileType == BmSignature && f.reserved == 0 && f.offbits < FileHeaderSize + InfoHeaderSize
    ensures Validate(f, i, readable, offset) == Fail(InvalidHeader(BadOffbits))
  {
    OffbitsCheck(f.offbits, readable);
  }

  // ---------------------------------------------------------------------
  // Reading

  /**
    What `load_bitmap_from_memory` does with `data`: both headers are read
    before anything is checked, so fewer than 54 bytes is an underflow;
    otherwise the checks run with the 54 bytes read and the rest readable.
  */
  function BmpCheck(data: seq<byte>): (o: Outcome)
    requires |data| < 0x1_0000_0000_0000_0000
    ensures |data| < FileHeaderSize + InfoHeaderSize <==> o == Fail(Underflow)
  {
    if |data| < FileHeaderSize then Fail(Underflow)
    else if |data| - FileHeaderSize < InfoHeaderSize then Fail(Underflow)
    else
      var f := ParseFileHeader(data[..FileHeaderSize]);
      var i := ParseInfoHeader(data[FileHeaderSize..FileHeaderSize + InfoHeaderSize]);
      Validate(f, i, |data| - (FileHeaderSize + InfoHeaderSize), FileHeaderSize + InfoHeaderSize)
  }

  /**
    The declared file size is checked against the whole input: a header
    that passes declares exactly `|data|` bytes.
  */
  lemma PassedSize(data: seq<byte>)
    requires |data| < 0x1_0000_0000_0000_0000 && BmpCheck(data) == Pass
    ensures |data| >= FileHeaderSize + InfoHeaderSize
    ensures ParseFileHeader(data[..FileHeaderSize]).size == |data|
  {
  }

  /**
    `detail::load_bitmap_from_memory(data, len, ...)`: two cursor reads, then
    the checks. Width, height and pixels are never written.
  */
  method LoadBitmapFromMemory(data: seq<byte>) returns (o: Outcome)
    requires |data| < 0x1_0000_0000_0000_0000
    ensures o == BmpCheck(data)
  {
    var dec := new Decoder.Create(data);
    var fheader := dec.Read(FileHeaderSize);
    if fheader.Err? {
      return Fail(fheader.error);
    }
    var iheader := dec.Read(InfoHeaderSize);
    if iheader.Err? {
      return Fail(iheader.error);
    }
    o := Validate(ParseFileHeader(fheader.value), ParseInfoHeader(iheader.value),
                  dec.GetReadable(), dec.GetReadOffset());
  }

  /**
    `bmp::load_memory(data, len)`: a header that passes yields the image of
    the width, height and pixels never written, 0x0 and empty; one that
    fails throws, goes through the error hook and yields `null()`, also 0x0.
  */
  method LoadMemory(data: seq<byte>) returns (img: Raster)
    requires |data| < 0x1_0000_0000_0000_0000
    ensures img == NullRaster
  {
    var width, height := 0, 0;
    var pixels: seq<Pixels.Pixel> := [];
    var o := LoadBitmapFromMemory(data);
    if o.Fail? {
      return NullRaster;
    }
    img := Raster(width, height, pixels);
  }
}
