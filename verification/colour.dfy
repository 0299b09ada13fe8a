/** The 16.16 fixed-point colour macros between RGB and full-range YCbCr (the luma weights
    of ITU-R BT.601, 19595 + 38470 + 7471 = 65536, as in JFIF, ITU-T T.871 clause 7), and
    the whole-image transforms that apply them pixel by pixel. */
module Colour {
  import opened Samples
  import opened Grid
  import opened Kernels
  import opened Ppm

  /** The largest value of a 32-bit C `int`; the macros are evaluated in `int`. */
  const IntMax: int := 0x7FFF_FFFF

  /** `v >> 16` on an `int`: an arithmetic shift, i.e. division by 65536 rounded down, also
      for negative `v`. */
  function Shr16(v: int): (r: int)
    ensures r * 0x1_0000 <= v < r * 0x1_0000 + 0x1_0000
  {
    v / 0x1_0000
  }

  /** The weighted sum inside `CRGB2Y`. */
  function LumaSum(r: u16, g: u16, b: u16): nat {
    19595 * r + 38470 * g + 7471 * b
  }

  /** The forward macros stay within `int`: the weighted sum of `CRGB2Y`, and the products
      `36962 * (B - Y)` of `CRGB2Cb` and `46727 * (R - Y)` of `CRGB2Cr` with the clipped
      luma `Y`. The products cannot fall below the `int` range, since `Y` is at most 255. */
  predicate ForwardFits(r: u16, g: u16, b: u16) {
    LumaSum(r, g, b) <= IntMax
    && var y := Clip(Shr16(LumaSum(r, g, b)));
       36962 * (b - y) <= IntMax && 46727 * (r - y) <= IntMax
  }

  /** The pure-blue 16-bit pixel fits the luma sum but overflows the product of `CRGB2Cb`,
      and the pure-red one overflows the product of `CRGB2Cr`. */
  lemma ChromaOverflow()
    ensures LumaSum(0, 0, 65535) <= IntMax && !ForwardFits(0, 0, 65535)
    ensures LumaSum(65535, 0, 0) <= IntMax && !ForwardFits(65535, 0, 0)
  {
  }

  function Min3(a: int, b: int, c: int): int {
    if a <= b && a <= c then a else if b <= c then b else c
  }

  function Max3(a: int, b: int, c: int): int {
    if a >= b && a >= c then a else if b >= c then b else c
  }

  /** `CRGB2Y`. An 8-bit pixel's luma lies between its smallest and its largest sample,
      since the weights sum to 65536. */
  function RgbToY(r: u16, g: u16, b: u16): (y: int)
    requires ForwardFits(r, g, b)
    ensures 0 <= y <= 255
    ensures r <= 255 && g <= 255 && b <= 255 ==> Min3(r, g, b) <= y <= Max3(r, g, b)
  {
    Clip(Shr16(LumaSum(r, g, b)))
  }

  /** `CRGB2Cb`: the blue difference scaled by 36962 / 65536, offset by 128. */
  function RgbToCb(r: u16, g: u16, b: u16): (cb: int)
    requires ForwardFits(r, g, b)
    ensures 0 <= cb <= 255
    ensures b == RgbToY(r, g, b) ==> cb == 128
  {
    Clip(Shr16(36962 * (b - RgbToY(r, g, b))) + 128)
  }

  /** `CRGB2Cr`: the red difference scaled by 46727 / 65536, offset by 128. */
  function RgbToCr(r: u16, g: u16, b: u16): (cr: int)
    requires ForwardFits(r, g, b)
    ensures 0 <= cr <= 255
    ensures r == RgbToY(r, g, b) ==> cr == 128
  {
    Clip(Shr16(46727 * (r - RgbToY(r, g, b))) + 128)
  }

  /** The inverse macros stay within `int`. */
  predicate InverseFits(y: u16, cb: u16, cr: u16) {
    91881 * cr <= IntMax && 22544 * cb + 46793 * cr <= IntMax && 116129 * cb <= IntMax
  }

  /** `CYCbCr2R`. */
  function YCbCrToR(y: u16, cb: u16, cr: u16): (r: int)
    requires InverseFits(y, cb, cr)
    ensures 0 <= r <= 255
    ensures cr == 128 && y <= 255 ==> r == y
  {
    Clip(y + Shr16(91881 * cr) - 179)
  }

  /** `CYCbCr2G`. */
  function YCbCrToG(y: u16, cb: u16, cr: u16): (g: int)
    requires InverseFits(y, cb, cr)
    ensures 0 <= g <= 255
    ensures cb == 128 && cr == 128 && y <= 255 ==> g == y
  {
    Clip(y - Shr16(22544 * cb + 46793 * cr) + 135)
  }

  /** `CYCbCr2B`. */
  function YCbCrToB(y: u16, cb: u16, cr: u16): (b: int)
    requires InverseFits(y, cb, cr)
    ensures 0 <= b <= 255
    ensures cb == 128 && y <= 255 ==> b == y
  {
    Clip(y + Shr16(116129 * cb) - 226)
  }

  /** A grey 8-bit pixel (k, k, k) has luma k and neutral chroma (128, 128). */
  lemma GreyToYCbCr(k: u16)
    requires k <= 255
    ensures ForwardFits(k, k, k)
    ensures RgbToY(k, k, k) == k && RgbToCb(k, k, k) == 128 && RgbToCr(k, k, k) == 128
  {
  }

  /** Neutral chroma converts back to the grey pixel (k, k, k). */
  lemma GreyFromYCbCr(k: u16)
    requires k <= 255
    ensures InverseFits(k, 128, 128)
    ensures YCbCrToR(k, 128, 128) == k && YCbCrToG(k, 128, 128) == k && YCbCrToB(k, 128, 128) == k
  {
  }

  /** An 8-bit pixel converts forward and back without overflow, and each sample comes
      back within 2 of where it started: the macros lose at most two steps to rounding. */
  lemma RoundTripTolerance(r: u16, g: u16, b: u16)
    requires r <= 255 && g <= 255 && b <= 255
    ensures ForwardFits(r, g, b)
    ensures var y, cb, cr := RgbToY(r, g, b), RgbToCb(r, g, b), RgbToCr(r, g, b);
      InverseFits(y, cb, cr)
      && Abs(YCbCrToR(y, cb, cr) - r) <= 2
      && Abs(YCbCrToG(y, cb, cr) - g) <= 2
      && Abs(YCbCrToB(y, cb, cr) - b) <= 2
  {
    RedTolerance(r, g, b);
    GreenTolerance(r, g, b);
    BlueTolerance(r, g, b);
  }

  /** The YCbCr of an 8-bit pixel converts back without overflow. */
  lemma ForwardThenInverseFits(r: u16, g: u16, b: u16)
    requires r <= 255 && g <= 255 && b <= 255
    ensures ForwardFits(r, g, b)
    ensures InverseFits(RgbToY(r, g, b), RgbToCb(r, g, b), RgbToCr(r, g, b))
  {
  }

  lemma RedTolerance(r: u16, g: u16, b: u16)
    requires r <= 255 && g <= 255 && b <= 255
    ensures ForwardFits(r, g, b)
    ensures var y, cb, cr := RgbToY(r, g, b), RgbToCb(r, g, b), RgbToCr(r, g, b);
      InverseFits(y, cb, cr) && Abs(YCbCrToR(y, cb, cr) - r) <= 2
  {
    ForwardThenInverseFits(r, g, b);
  }

  /** An 8-bit pixel's luma is its weighted sum divided by 65536 and rounded down: no
      clipping happens. */
  lemma LumaIsFloor(r: u16, g: u16, b: u16)
    requires r <= 255 && g <= 255 && b <= 255
    ensures ForwardFits(r, g, b)
    ensures var y := RgbToY(r, g, b); y * 0x1_0000 <= LumaSum(r, g, b) < y * 0x1_0000 + 0x1_0000
  {
  }

  /** The green round trip for any luma `y` that is the rounded-down weighted sum, and
      the chroma the forward macros compute from it. */
  lemma GreenFromLuma(r: u16, g: u16, b: u16, y: u16, cb: u16, cr: u16)
    requires r <= 255 && g <= 255 && b <= 255 && y <= 255
    requires y * 0x1_0000 <= LumaSum(r, g, b) < y * 0x1_0000 + 0x1_0000
    requires cb == Clip(Shr16(36962 * (b - y)) + 128) && cr == Clip(Shr16(46727 * (r - y)) + 128)
    ensures InverseFits(y, cb, cr) && Abs(YCbCrToG(y, cb, cr) - g) <= 2
  {
  }

  lemma GreenTolerance(r: u16, g: u16, b: u16)
    requires r <= 255 && g <= 255 && b <= 255
    ensures ForwardFits(r, g, b)
    ensures var y, cb, cr := RgbToY(r, g, b), RgbToCb(r, g, b), RgbToCr(r, g, b);
      InverseFits(y, cb, cr) && Abs(YCbCrToG(y, cb, cr) - g) <= 2
  {
    LumaIsFloor(r, g, b);
    GreenFromLuma(r, g, b, RgbToY(r, g, b), RgbToCb(r, g, b), RgbToCr(r, g, b));
  }

  lemma BlueTolerance(r: u16, g: u16, b: u16)
    requires r <= 255 && g <= 255 && b <= 255
    ensures ForwardFits(r, g, b)
    ensures var y, cb, cr := RgbToY(r, g, b), RgbToCb(r, g, b), RgbToCr(r, g, b);
      InverseFits(y, cb, cr) && Abs(YCbCrToB(y, cb, cr) - b) <= 2
  {
    ForwardThenInverseFits(r, g, b);
  }

  /** Every pixel of the image can be converted without overflow. */
  predicate ForwardImage(img: Image) {
    Valid(img)
    && forall i :: 0 <= i < |img.ch1| ==> ForwardFits(img.ch1[i], img.ch2[i], img.ch3[i])
  }

  predicate InverseImage(img: Image) {
    Valid(img)
    && forall i :: 0 <= i < |img.ch1| ==> InverseFits(img.ch1[i], img.ch2[i], img.ch3[i])
  }

  /** Every sample of every plane is at most 255. */
  predicate EightBit(img: Image) {
    FitsInByte(img.ch1) && FitsInByte(img.ch2) && FitsInByte(img.ch3)
  }

  /** The RGB to YCbCr tool: each output pixel is the (Y, Cb, Cr) of the input pixel at the
      same offset; width, height and maxval are kept. */
  function RgbToYuv(img: Image): (r: Image)
    requires ForwardImage(img)
    ensures Valid(r) && HeaderOf(r) == HeaderOf(img)
    ensures EightBit(r)
  {
    var n := |img.ch1|;
    img.(ch1 := seq(n, i requires 0 <= i < n => RgbToY(img.ch1[i], img.ch2[i], img.ch3[i]) as u16),
         ch2 := seq(n, i requires 0 <= i < n => RgbToCb(img.ch1[i], img.ch2[i], img.ch3[i]) as u16),
         ch3 := seq(n, i requires 0 <= i < n => RgbToCr(img.ch1[i], img.ch2[i], img.ch3[i]) as u16))
  }

  /** The YCbCr to RGB tool, pixel by pixel in the same way. */
  function YuvToRgb(img: Image): (r: Image)
    requires InverseImage(img)
    ensures Valid(r) && HeaderOf(r) == HeaderOf(img)
    ensures EightBit(r)
  {
    var n := |img.ch1|;
    img.(ch1 := seq(n, i requires 0 <= i < n => YCbCrToR(img.ch1[i], img.ch2[i], img.ch3[i]) as u16),
         ch2 := seq(n, i requires 0 <= i < n => YCbCrToG(img.ch1[i], img.ch2[i], img.ch3[i]) as u16),
         ch3 := seq(n, i requires 0 <= i < n => YCbCrToB(img.ch1[i], img.ch2[i], img.ch3[i]) as u16))
  }

  /** The three samples of the pixel at offset `i`. */
  function PixelAt(img: Image, i: nat): (u16, u16, u16)
    requires Valid(img) && i < |img.ch1|
  {
    (img.ch1[i], img.ch2[i], img.ch3[i])
  }

  /** Each output pixel of the forward tool is computed from the input pixel at the same
      offset alone: two images that agree at that offset give the same output there. */
  lemma RgbToYuvIsPerPixel(img: Image, img2: Image, i: nat)
    requires ForwardImage(img) && ForwardImage(img2) && HeaderOf(img) == HeaderOf(img2)
    requires i < |img.ch1| && PixelAt(img, i) == PixelAt(img2, i)
    ensures PixelAt(RgbToYuv(img), i) == PixelAt(RgbToYuv(img2), i)
  {
  }

  /** The same for the inverse tool. */
  lemma YuvToRgbIsPerPixel(img: Image, img2: Image, i: nat)
    requires InverseImage(img) && InverseImage(img2) && HeaderOf(img) == HeaderOf(img2)
    requires i < |img.ch1| && PixelAt(img, i) == PixelAt(img2, i)
    ensures PixelAt(YuvToRgb(img), i) == PixelAt(YuvToRgb(img2), i)
  {
  }

  /** An 8-bit image whose three planes are equal (a grey image). */
  predicate GreyImage(img: Image) {
    Valid(img) && EightBit(img) && img.ch2 == img.ch1 && img.ch3 == img.ch1
  }

  /** A grey image comes back unchanged from the forward and then the inverse tool. */
  lemma GreyImageRoundTrip(img: Image)
    requires GreyImage(img)
    ensures ForwardImage(img)
    ensures InverseImage(RgbToYuv(img))
    ensures YuvToRgb(RgbToYuv(img)) == img
  {
    var n := |img.ch1|;
    forall i | 0 <= i < n
      ensures ForwardFits(img.ch1[i], img.ch2[i], img.ch3[i])
    {
      GreyToYCbCr(img.ch1[i]);
    }
    var mid := RgbToYuv(img);
    forall i | 0 <= i < n
      ensures mid.ch1[i] == img.ch1[i] && mid.ch2[i] == 128 && mid.ch3[i] == 128
    {
      GreyToYCbCr(img.ch1[i]);
    }
    forall i | 0 <= i < n
      ensures InverseFits(mid.ch1[i], mid.ch2[i], mid.ch3[i])
    {
      GreyFromYCbCr(img.ch1[i]);
    }
    var back := YuvToRgb(mid);
    forall i | 0 <= i < n
      ensures back.ch1[i] == img.ch1[i] && back.ch2[i] == img.ch1[i] && back.ch3[i] == img.ch1[i]
    {
      GreyFromYCbCr(img.ch1[i]);
    }
  }
}
