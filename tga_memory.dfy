/**
  `tga::load_memory`: the TGA reader's result wrapped into an image value.
*/
module TgaMemory {
  import opened Bytes
  import opened Errors
  import opened Pixels
  import opened TgaSpec
  import opened TgaLoader
  import opened ImageBuffer

  /**
    `tga::load_memory<pixel>(memory, size)`: the decoded image, or the null
    image when decoding fails or yields a pixel size other than 3 or 4. A
    cursor underflow is thrown and reaches the error hook; the null image
    it then ends as is what is modelled.
  */
  method LoadMemory(data: seq<byte>, to: Layout) returns (img: Raster)
    requires to == RGB24 || to == RGBA32
    ensures var d := TgaDecode(data, to);
      img == if d.Ok? then Raster(d.value.width, d.value.height, d.value.pixels) else NullRaster
    ensures |img.pixels| == img.width * img.height
  {
    var r := TgaLoadMemory(data, to);
    if r.Err? || (r.value.bpp != 3 && r.value.bpp != 4) {
      return NullRaster;
    }
    img := Raster(r.value.width, r.value.height, r.value.pixels);
  }
}
