/** The three-plane raw format ('P6'): the `Image` record with one plane per colour
    channel, its reader and writer, and the single-pixel accessors. */
module Ppm {
  import opened Samples
  import opened Results
  import opened Grid
  import opened Header
  import opened Layout
  import opened Codec
  import opened Raster

  const Magic: byte := 54  // '6'
  const Channels: nat := 3

  /** The `Image` record: dimensions, maxval and three planes of `u_short` samples, each
      holding width * height samples in row-major order. */
  datatype Image = Image(width: int, height: int, maxval: int, ch1: seq<u16>, ch2: seq<u16>, ch3: seq<u16>)

  predicate Valid(img: Image) {
    img.width >= 0 && img.height >= 0
    && |img.ch1| == img.width * img.height
    && |img.ch2| == img.width * img.height
    && |img.ch3| == img.width * img.height
  }

  function Planes(img: Image): seq<seq<u16>> {
    [img.ch1, img.ch2, img.ch3]
  }

  function HeaderOf(img: Image): Header {
    Header(img.width, img.height, img.maxval)
  }

  function ImageOf(d: Decoded): Image
    requires |d.planes| == Channels
  {
    Image(d.header.width, d.header.height, d.header.maxval, d.planes[0], d.planes[1], d.planes[2])
  }

  lemma ImageOfShaped(d: Decoded)
    requires Shaped(d, Channels)
    ensures Valid(ImageOf(d)) && Planes(ImageOf(d)) == d.planes
  {
  }

  /** `ImageRead`: the header with magic '6', then width * height * 3 samples. */
  function ImageRead(file: seq<byte>): (r: Result<Image>)
    ensures r.Ok? ==> Valid(r.value) && ValidDimension(r.value.width) && ValidDimension(r.value.height)
    ensures r.Ok? && r.value.maxval <= 255 ==> PlanesFitInByte(Planes(r.value))
  {
    var d :- ReadPlanes(file, Magic, Channels);
    ImageOfShaped(d);
    Ok(ImageOf(d))
  }

  /** The reader with the header ended by exactly one whitespace byte. */
  function ImageReadStrict(file: seq<byte>): (r: Result<Image>)
    ensures r.Ok? ==> Valid(r.value) && ValidDimension(r.value.width) && ValidDimension(r.value.height)
    ensures r.Ok? && r.value.maxval <= 255 ==> PlanesFitInByte(Planes(r.value))
  {
    var d :- ReadPlanesStrict(file, Magic, Channels);
    ImageOfShaped(d);
    Ok(ImageOf(d))
  }

  /** `ImageWrite`: "P6", the dimensions and maxval in decimal, then the interleaved payload
      of width * height * 3 samples. */
  function ImageWrite(img: Image): (r: seq<byte>)
    requires Valid(img)
    ensures |r| == |FormatHeader(Magic, img.width, img.height, img.maxval)|
      + img.width * img.height * Channels * SampleBytes(img.maxval)
  {
    WritePlanes(Magic, HeaderOf(img), Planes(img))
  }

  /** Only 'P6' files are read. */
  lemma ImageReadMagic(file: seq<byte>)
    requires !(|file| >= 2 && file[0] == LetterP && file[1] == Magic)
    ensures ImageRead(file) == Err(NotRawFormat)
  {
    OtherMagicRejected(file, Magic, Channels);
  }

  /** What the writer emits, the strict reader returns, provided one-byte samples fit in a
      byte and the dimensions are ones the reader accepts. */
  lemma ImageRoundTripStrict(img: Image)
    requires Valid(img) && ValidDimension(img.width) && ValidDimension(img.height)
    requires img.maxval <= 255 ==> PlanesFitInByte(Planes(img))
    ensures ImageReadStrict(ImageWrite(img)) == Ok(img)
  {
    WriteReadStrict(Magic, HeaderOf(img), Planes(img));
  }

  /** The reader as written returns what the writer emitted under the same conditions,
      provided in addition that the first payload byte is not a whitespace code. */
  lemma ImageRoundTrip(img: Image)
    requires Valid(img) && ValidDimension(img.width) && ValidDimension(img.height)
    requires img.maxval <= 255 ==> PlanesFitInByte(Planes(img))
    requires !IsSpace(FirstPayloadByte(Planes(img), img.maxval))
    ensures ImageRead(ImageWrite(img)) == Ok(img)
  {
    WriteReadStrict(Magic, HeaderOf(img), Planes(img));
    WriteRead(Magic, HeaderOf(img), Planes(img));
  }

  /** An image whose first payload byte is a whitespace code cannot be read back: the
      header reader swallows that byte and the payload comes up one byte short. */
  lemma ImageRoundTripLeadingSpace(img: Image)
    requires Valid(img) && ValidDimension(img.width) && ValidDimension(img.height)
    requires img.maxval <= 255 ==> PlanesFitInByte(Planes(img))
    requires IsSpace(FirstPayloadByte(Planes(img), img.maxval))
    ensures ImageRead(ImageWrite(img)) == Err(ShortRead)
  {
    WriteReadLeadingSpace(Magic, HeaderOf(img), Planes(img));
  }

  /** A one-pixel 8-bit image whose red sample is 32, the code of a space. */
  lemma SpaceRedPixelLost()
    ensures var img := Image(1, 1, 255, [32], [0], [0]);
      ImageRead(ImageWrite(img)) == Err(ShortRead) && ImageReadStrict(ImageWrite(img)) == Ok(img)
  {
    var img := Image(1, 1, 255, [32], [0], [0]);
    assert PlanesFitInByte(Planes(img));
    ImageRoundTripLeadingSpace(img);
    ImageRoundTripStrict(img);
  }

  /** The plane `ImageSetPixel` and `ImageGetPixel` pick: 0 is the first, 1 the second and
      every other value the third. */
  function ChannelIndex(chan: int): (c: nat)
    ensures c < Channels
    ensures 0 <= chan < Channels ==> c == chan
    ensures chan != 0 && chan != 1 ==> c == 2
  {
    if chan == 0 then 0 else if chan == 1 then 1 else 2
  }

  /** The offset `y * width + x` addresses a sample of the planes. */
  predicate InImage(img: Image, x: int, y: int) {
    0 <= y * img.width + x < img.width * img.height
  }

  /** `ImageGetPixel`: the sample at offset `y * width + x` of the chosen plane. */
  function ImageGetPixel(img: Image, x: int, y: int, chan: int): (v: u16)
    requires Valid(img) && InImage(img, x, y)
    ensures 0 <= x < img.width && 0 <= y < img.height
      ==> v == At(Planes(img)[ChannelIndex(chan)], img.width, img.height, x, y)
  {
    OffsetIsProduct(x, if y < 0 then 0 else y, img.width);
    Planes(img)[ChannelIndex(chan)][y * img.width + x]
  }

  /** `ImageSetPixel`: the sample at offset `y * width + x` of the chosen plane becomes `val`. */
  function ImageSetPixel(img: Image, x: int, y: int, chan: int, val: u16): (r: Image)
    requires Valid(img) && InImage(img, x, y)
    ensures Valid(r) && HeaderOf(r) == HeaderOf(img)
    ensures forall c :: 0 <= c < Channels && c != ChannelIndex(chan) ==> Planes(r)[c] == Planes(img)[c]
  {
    var i := y * img.width + x;
    if chan == 0 then img.(ch1 := img.ch1[i := val])
    else if chan == 1 then img.(ch2 := img.ch2[i := val])
    else img.(ch3 := img.ch3[i := val])
  }

  /** Reading any sample after `ImageSetPixel` gives `val` at the offset and plane that were
      set, and the old sample everywhere else. */
  lemma GetAfterSet(img: Image, x: int, y: int, chan: int, val: u16, x2: int, y2: int, chan2: int)
    requires Valid(img) && InImage(img, x, y) && InImage(img, x2, y2)
    ensures ImageGetPixel(ImageSetPixel(img, x, y, chan, val), x2, y2, chan2)
      == if y2 * img.width + x2 == y * img.width + x && ChannelIndex(chan2) == ChannelIndex(chan) then val
         else ImageGetPixel(img, x2, y2, chan2)
  {
  }

  /** `ImageClear`: every sample of the three planes takes the given value of its plane. */
  function ImageClear(img: Image, red: u16, green: u16, blue: u16): (r: Image)
    requires Valid(img)
    ensures Valid(r) && HeaderOf(r) == HeaderOf(img)
  {
    var n := img.width * img.height;
    img.(ch1 := seq(n, _ => red), ch2 := seq(n, _ => green), ch3 := seq(n, _ => blue))
  }

  /** After `ImageClear` every pixel reads back as the colour cleared to. */
  lemma GetAfterClear(img: Image, red: u16, green: u16, blue: u16, x: int, y: int, chan: int)
    requires Valid(img) && InImage(img, x, y)
    ensures ImageGetPixel(ImageClear(img, red, green, blue), x, y, chan) == [red, green, blue][ChannelIndex(chan)]
  {
  }
}
