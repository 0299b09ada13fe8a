/** The one-plane raw format ('P5'): the `ImagePGM` record with a single grey plane, its
    reader and writer, and the single-pixel accessors. */
module Pgm {
  import opened Samples
  import opened Results
  import opened Header
  import opened Grid
  import opened Layout
  import opened Codec
  import opened Raster

  const Magic: byte := 53  // '5'
  const Channels: nat := 1

  /** The `ImagePGM` record: dimensions, maxval and one plane of `u_short` samples holding
      width * height samples in row-major order. */
  datatype ImagePGM = ImagePGM(width: int, height: int, maxval: int, ch: seq<u16>)

  predicate Valid(img: ImagePGM) {
    img.width >= 0 && img.height >= 0 && |img.ch| == img.width * img.height
  }

  function Planes(img: ImagePGM): seq<seq<u16>> {
    [img.ch]
  }

  function HeaderOf(img: ImagePGM): Header {
    Header(img.width, img.height, img.maxval)
  }

  function ImageOf(d: Decoded): ImagePGM
    requires |d.planes| == Channels
  {
    ImagePGM(d.header.width, d.header.height, d.header.maxval, d.planes[0])
  }

  lemma ImageOfShaped(d: Decoded)
    requires Shaped(d, Channels)
    ensures Valid(ImageOf(d)) && Planes(ImageOf(d)) == d.planes
  {
  }

  /** `ImagePGMRead`: the header with magic '5', then width * height samples. */
  function ImagePGMRead(file: seq<byte>): (r: Result<ImagePGM>)
    ensures r.Ok? ==> Valid(r.value) && ValidDimension(r.value.width) && ValidDimension(r.value.height)
    ensures r.Ok? && r.value.maxval <= 255 ==> PlanesFitInByte(Planes(r.value))
  {
    var d :- ReadPlanes(file, Magic, Channels);
    ImageOfShaped(d);
    Ok(ImageOf(d))
  }

  /** The reader with the header ended by exactly one whitespace byte. */
  function ImagePGMReadStrict(file: seq<byte>): (r: Result<ImagePGM>)
    ensures r.Ok? ==> Valid(r.value) && ValidDimension(r.value.width) && ValidDimension(r.value.height)
    ensures r.Ok? && r.value.maxval <= 255 ==> PlanesFitInByte(Planes(r.value))
  {
    var d :- ReadPlanesStrict(file, Magic, Channels);
    ImageOfShaped(d);
    Ok(ImageOf(d))
  }

  /** `ImagePGMWrite`: "P5", the dimensions and maxval in decimal, then width * height
      samples. */
  function ImagePGMWrite(img: ImagePGM): (r: seq<byte>)
    requires Valid(img)
    ensures |r| == |FormatHeader(Magic, img.width, img.height, img.maxval)|
      + img.width * img.height * SampleBytes(img.maxval)
  {
    WritePlanes(Magic, HeaderOf(img), Planes(img))
  }

  /** Only 'P5' files are read. */
  lemma ImagePGMReadMagic(file: seq<byte>)
    requires !(|file| >= 2 && file[0] == LetterP && file[1] == Magic)
    ensures ImagePGMRead(file) == Err(NotRawFormat)
  {
    OtherMagicRejected(file, Magic, Channels);
  }

  /** What the writer emits, the strict reader returns, provided one-byte samples fit in a
      byte and the dimensions are ones the reader accepts. */
  lemma ImagePGMRoundTripStrict(img: ImagePGM)
    requires Valid(img) && ValidDimension(img.width) && ValidDimension(img.height)
    requires img.maxval <= 255 ==> PlanesFitInByte(Planes(img))
    ensures ImagePGMReadStrict(ImagePGMWrite(img)) == Ok(img)
  {
    WriteReadStrict(Magic, HeaderOf(img), Planes(img));
  }

  /** The reader as written returns what the writer emitted under the same conditions,
      provided in addition that the first payload byte is not a whitespace code. */
  lemma ImagePGMRoundTrip(img: ImagePGM)
    requires Valid(img) && ValidDimension(img.width) && ValidDimension(img.height)
    requires img.maxval <= 255 ==> PlanesFitInByte(Planes(img))
    requires !IsSpace(FirstPayloadByte(Planes(img), img.maxval))
    ensures ImagePGMRead(ImagePGMWrite(img)) == Ok(img)
  {
    WriteReadStrict(Magic, HeaderOf(img), Planes(img));
    WriteRead(Magic, HeaderOf(img), Planes(img));
  }

  /** An image whose first payload byte is a whitespace code cannot be read back. */
  lemma ImagePGMRoundTripLeadingSpace(img: ImagePGM)
    requires Valid(img) && ValidDimension(img.width) && ValidDimension(img.height)
    requires img.maxval <= 255 ==> PlanesFitInByte(Planes(img))
    requires IsSpace(FirstPayloadByte(Planes(img), img.maxval))
    ensures ImagePGMRead(ImagePGMWrite(img)) == Err(ShortRead)
  {
    WriteReadLeadingSpace(Magic, HeaderOf(img), Planes(img));
  }

  /** A two-by-one 16-bit image whose first sample is 0x0A00: its high byte, written first,
      is the code of a newline. */
  lemma NewlineHighBytePixelLost()
    ensures var img := ImagePGM(2, 1, 65535, [0x0A00, 7]);
      ImagePGMRead(ImagePGMWrite(img)) == Err(ShortRead) && ImagePGMReadStrict(ImagePGMWrite(img)) == Ok(img)
  {
    var img := ImagePGM(2, 1, 65535, [0x0A00, 7]);
    ImagePGMRoundTripLeadingSpace(img);
    ImagePGMRoundTripStrict(img);
  }

  /** The offset `y * width + x` addresses a sample of the plane. */
  predicate InImage(img: ImagePGM, x: int, y: int) {
    0 <= y * img.width + x < img.width * img.height
  }

  /** `ImagePGMGetPixel`: the sample at offset `y * width + x`. */
  function ImagePGMGetPixel(img: ImagePGM, x: int, y: int): (v: u16)
    requires Valid(img) && InImage(img, x, y)
    ensures 0 <= x < img.width && 0 <= y < img.height ==> v == At(img.ch, img.width, img.height, x, y)
  {
    OffsetIsProduct(x, if y < 0 then 0 else y, img.width);
    img.ch[y * img.width + x]
  }

  /** `ImagePGMSetPixel`: the sample at offset `y * width + x` becomes `val`. */
  function ImagePGMSetPixel(img: ImagePGM, x: int, y: int, val: u16): (r: ImagePGM)
    requires Valid(img) && InImage(img, x, y)
    ensures Valid(r) && HeaderOf(r) == HeaderOf(img)
  {
    img.(ch := img.ch[y * img.width + x := val])
  }

  /** Reading any sample after `ImagePGMSetPixel` gives `val` at the offset that was set and
      the old sample everywhere else. */
  lemma GetAfterSet(img: ImagePGM, x: int, y: int, val: u16, x2: int, y2: int)
    requires Valid(img) && InImage(img, x, y) && InImage(img, x2, y2)
    ensures ImagePGMGetPixel(ImagePGMSetPixel(img, x, y, val), x2, y2)
      == if y2 * img.width + x2 == y * img.width + x then val else ImagePGMGetPixel(img, x2, y2)
  {
  }

  /** `ImagePGMClear`: every sample takes the value `grey`. */
  function ImagePGMClear(img: ImagePGM, grey: u16): (r: ImagePGM)
    requires Valid(img)
    ensures Valid(r) && HeaderOf(r) == HeaderOf(img)
  {
    img.(ch := seq(img.width * img.height, _ => grey))
  }

  /** After `ImagePGMClear` every pixel reads back as `grey`. */
  lemma GetAfterClear(img: ImagePGM, grey: u16, x: int, y: int)
    requires Valid(img) && InImage(img, x, y)
    ensures ImagePGMGetPixel(ImagePGMClear(img, grey), x, y) == grey
  {
  }
}
