/** The Bayer tools: the RGGB mosaic that turns a three-plane image into a one-plane
    sensor image of 2x2 blocks (red, green / green, blue), and the block replication that
    turns such a sensor image back into three planes. */
module Bayer {
  import opened Samples
  import opened Grid
  import opened Kernels
  import Ppm
  import Pgm

  /** `(1 << 16) - 1`: the maxval of every mosaic image. */
  const BayerMaxval: int := 0xFFFF

  /** `(a + b) >> 1` on non-negative samples: the floor average of a pair, which lies
      between the two samples. */
  function Avg2(a: u16, b: u16): (r: u16)
    ensures Min(a, b) <= r <= Max(a, b)
    ensures 2 * r <= a + b < 2 * r + 2
  {
    (a + b) / 2
  }

  /** `(a + b + c + d) >> 2`: the floor average of four samples, between the smallest and
      the largest of them. */
  function Avg4(a: u16, b: u16, c: u16, d: u16): (r: u16)
    ensures Min(Min(a, b), Min(c, d)) <= r <= Max(Max(a, b), Max(c, d))
    ensures 4 * r <= a + b + c + d < 4 * r + 4
  {
    (a + b + c + d) / 4
  }

  /** The facts the contract of `Scale` states, about the exact quotient. */
  lemma QuotientFacts(v: nat, m: nat)
    requires 1 <= m && v <= m
    ensures v * BayerMaxval / m <= BayerMaxval
    ensures v == m ==> v * BayerMaxval / m == BayerMaxval
    ensures m == BayerMaxval ==> v * BayerMaxval / m == v
  {
    MulLe(v, m, BayerMaxval);
    var q := v * BayerMaxval / m;
    assert q * m <= v * BayerMaxval;
    if q > BayerMaxval {
      MulLe(BayerMaxval + 1, q, m);
      assert false;
    }
    if v == m {
      assert v * BayerMaxval == BayerMaxval * m;
    }
  }

  /** The rescale of an average from [0, maxval] to [0, 65535], idealised from the float
      expression `(u_short)((avg / maxval) * 65535)` to exact rational arithmetic rounded
      down. It keeps 0 and maps maxval to 65535; an average already on the 16-bit scale is
      unchanged. */
  function Scale(avg: u16, maxval: int): (r: u16)
    requires 1 <= maxval && avg <= maxval
    ensures avg == 0 ==> r == 0
    ensures avg == maxval ==> r == BayerMaxval
    ensures maxval == BayerMaxval ==> r == avg
  {
    QuotientFacts(avg, maxval);
    avg * BayerMaxval / maxval
  }

  /** Width and height are even, so the image splits into whole 2x2 blocks. */
  predicate EvenSize(width: int, height: int) {
    width >= 0 && height >= 0 && width % 2 == 0 && height % 2 == 0
  }

  /** `(x, y)` is the top-left pixel of a block. */
  predicate BlockBase(x: int, y: int, width: int, height: int) {
    EvenSize(width, height) && 0 <= x < width && 0 <= y < height && x % 2 == 0 && y % 2 == 0
  }

  /** Pixel `(dx, dy)` of the block at `(x, y)`. */
  function Corner(plane: seq<u16>, width: int, height: int, x: int, y: int, dx: int, dy: int): u16
    requires |plane| == width * height && BlockBase(x, y, width, height)
    requires 0 <= dx < 2 && 0 <= dy < 2
  {
    At(plane, width, height, x + dx, y + dy)
  }

  /** The four samples of the block at `(x, y)`: top-left, top-right, bottom-left,
      bottom-right. */
  function Quad(plane: seq<u16>, width: int, height: int, x: int, y: int): (u16, u16, u16, u16)
    requires |plane| == width * height && BlockBase(x, y, width, height)
  {
    (Corner(plane, width, height, x, y, 0, 0), Corner(plane, width, height, x, y, 1, 0),
     Corner(plane, width, height, x, y, 0, 1), Corner(plane, width, height, x, y, 1, 1))
  }

  /** A corner of a block is the pixel at its coordinates. */
  lemma CornerAt(plane: seq<u16>, width: int, height: int, x: int, y: int, dx: int, dy: int, v: u16)
    requires |plane| == width * height && BlockBase(x, y, width, height)
    requires 0 <= dx < 2 && 0 <= dy < 2 && x + dx < width && y + dy < height
    requires At(plane, width, height, x + dx, y + dy) == v
    ensures Corner(plane, width, height, x, y, dx, dy) == v
  {
  }

  /** A block whose four corners are known. */
  lemma QuadOf(plane: seq<u16>, width: int, height: int, x: int, y: int, a: u16, b: u16, c: u16, d: u16)
    requires |plane| == width * height && BlockBase(x, y, width, height)
    requires Corner(plane, width, height, x, y, 0, 0) == a && Corner(plane, width, height, x, y, 1, 0) == b
    requires Corner(plane, width, height, x, y, 0, 1) == c && Corner(plane, width, height, x, y, 1, 1) == d
    ensures Quad(plane, width, height, x, y) == (a, b, c, d)
  {
  }

  /** The top-left pixel of the block a pixel lies in. */
  lemma BaseOf(x: int, y: int, width: int, height: int)
    requires EvenSize(width, height) && 0 <= x < width && 0 <= y < height
    ensures BlockBase(x - x % 2, y - y % 2, width, height)
  {
  }

  /** An even coordinate plus 0 or 1 is back at that coordinate's block, at position `d`. */
  lemma EvenStep(x: int, d: int)
    requires x % 2 == 0 && 0 <= d < 2
    ensures (x + d) % 2 == d && (x + d) - (x + d) % 2 == x
  {
  }

  /** Every sample is at most maxval, and maxval is positive: what the rescale needs. */
  predicate Scalable(img: Ppm.Image) {
    Ppm.Valid(img) && img.maxval >= 1
    && (forall i :: 0 <= i < |img.ch1| ==> img.ch1[i] <= img.maxval)
    && (forall i :: 0 <= i < |img.ch2| ==> img.ch2[i] <= img.maxval)
    && (forall i :: 0 <= i < |img.ch3| ==> img.ch3[i] <= img.maxval)
  }

  /** The images `ppm_to_bayer` handles: whole blocks, samples within maxval. */
  predicate MosaicInput(img: Ppm.Image) {
    Scalable(img) && EvenSize(img.width, img.height)
  }

  lemma CornerWithin(plane: seq<u16>, width: int, height: int, x: int, y: int, dx: int, dy: int, maxval: int)
    requires |plane| == width * height && BlockBase(x, y, width, height)
    requires 0 <= dx < 2 && 0 <= dy < 2
    requires forall i :: 0 <= i < |plane| ==> plane[i] <= maxval
    ensures Corner(plane, width, height, x, y, dx, dy) <= maxval
  {
    OffsetInRange(x + dx, y + dy, width, height);
    OffsetIsProduct(x + dx, y + dy, width);
  }

  /** The red average of the block at `(x, y)`: all four red samples, `>> 2`. */
  function RedAverage(img: Ppm.Image, x: int, y: int): (r: u16)
    requires MosaicInput(img) && BlockBase(x, y, img.width, img.height)
    ensures r <= img.maxval
  {
    var w, h := img.width, img.height;
    CornerWithin(img.ch1, w, h, x, y, 0, 0, img.maxval);
    CornerWithin(img.ch1, w, h, x, y, 1, 0, img.maxval);
    CornerWithin(img.ch1, w, h, x, y, 0, 1, img.maxval);
    CornerWithin(img.ch1, w, h, x, y, 1, 1, img.maxval);
    Avg4(Corner(img.ch1, w, h, x, y, 0, 0), Corner(img.ch1, w, h, x, y, 1, 0),
         Corner(img.ch1, w, h, x, y, 0, 1), Corner(img.ch1, w, h, x, y, 1, 1))
  }

  /** The green average of the block's top row, `>> 1`. */
  function TopGreen(img: Ppm.Image, x: int, y: int): (r: u16)
    requires MosaicInput(img) && BlockBase(x, y, img.width, img.height)
    ensures r <= img.maxval
  {
    var w, h := img.width, img.height;
    CornerWithin(img.ch2, w, h, x, y, 0, 0, img.maxval);
    CornerWithin(img.ch2, w, h, x, y, 1, 0, img.maxval);
    Avg2(Corner(img.ch2, w, h, x, y, 0, 0), Corner(img.ch2, w, h, x, y, 1, 0))
  }

  /** The green average of the block's bottom row, `>> 1`. */
  function BottomGreen(img: Ppm.Image, x: int, y: int): (r: u16)
    requires MosaicInput(img) && BlockBase(x, y, img.width, img.height)
    ensures r <= img.maxval
  {
    var w, h := img.width, img.height;
    CornerWithin(img.ch2, w, h, x, y, 0, 1, img.maxval);
    CornerWithin(img.ch2, w, h, x, y, 1, 1, img.maxval);
    Avg2(Corner(img.ch2, w, h, x, y, 0, 1), Corner(img.ch2, w, h, x, y, 1, 1))
  }

  /** The blue average of the block: all four blue samples, `>> 2`. */
  function BlueAverage(img: Ppm.Image, x: int, y: int): (r: u16)
    requires MosaicInput(img) && BlockBase(x, y, img.width, img.height)
    ensures r <= img.maxval
  {
    var w, h := img.width, img.height;
    CornerWithin(img.ch3, w, h, x, y, 0, 0, img.maxval);
    CornerWithin(img.ch3, w, h, x, y, 1, 0, img.maxval);
    CornerWithin(img.ch3, w, h, x, y, 0, 1, img.maxval);
    CornerWithin(img.ch3, w, h, x, y, 1, 1, img.maxval);
    Avg4(Corner(img.ch3, w, h, x, y, 0, 0), Corner(img.ch3, w, h, x, y, 1, 0),
         Corner(img.ch3, w, h, x, y, 0, 1), Corner(img.ch3, w, h, x, y, 1, 1))
  }

  /** The mosaic sample at position `(dx, dy)` of the block at `(x, y)`: red top-left,
      green top-right and bottom-left, blue bottom-right. */
  function BlockSample(img: Ppm.Image, x: int, y: int, dx: int, dy: int): u16
    requires MosaicInput(img) && BlockBase(x, y, img.width, img.height)
  {
    if dy == 0 && dx == 0 then Scale(RedAverage(img, x, y), img.maxval)
    else if dy == 0 then Scale(TopGreen(img, x, y), img.maxval)
    else if dx == 0 then Scale(BottomGreen(img, x, y), img.maxval)
    else Scale(BlueAverage(img, x, y), img.maxval)
  }

  /** The mosaic sample at `(x, y)`, by the position of `(x, y)` in its block, whose
      top-left pixel is `(px, py)`: the RGGB pattern, red on even rows and columns, blue on
      odd ones, the top green on even rows and odd columns, the bottom green on odd rows
      and even columns. */
  function MosaicAt(img: Ppm.Image, x: int, y: int): (v: u16)
    requires MosaicInput(img) && 0 <= x < img.width && 0 <= y < img.height
    ensures BlockBase(x - x % 2, y - y % 2, img.width, img.height)
    ensures var px, py, m := x - x % 2, y - y % 2, img.maxval;
      && (x % 2 == 0 && y % 2 == 0 ==> v == Scale(RedAverage(img, px, py), m))
      && (x % 2 == 1 && y % 2 == 0 ==> v == Scale(TopGreen(img, px, py), m))
      && (x % 2 == 0 && y % 2 == 1 ==> v == Scale(BottomGreen(img, px, py), m))
      && (x % 2 == 1 && y % 2 == 1 ==> v == Scale(BlueAverage(img, px, py), m))
  {
    BaseOf(x, y, img.width, img.height);
    BlockSample(img, x - x % 2, y - y % 2, x % 2, y % 2)
  }

  /** Row `y` of the mosaic: the mosaic samples of `(0, y)` to `(width - 1, y)`. */
  function MosaicRow(img: Ppm.Image, y: int): (row: seq<u16>)
    requires MosaicInput(img) && 0 <= y < img.height
    ensures |row| == img.width
  {
    seq(img.width, x requires 0 <= x < img.width => MosaicAt(img, x, y))
  }

  /** The first `n` rows of the mosaic. */
  function MosaicRows(img: Ppm.Image, n: nat): (rows: seq<seq<u16>>)
    requires MosaicInput(img) && n <= img.height
    ensures |rows| == n && Uniform(rows, img.width)
  {
    if n == 0 then [] else MosaicRows(img, n - 1) + [MosaicRow(img, n - 1)]
  }

  /** Row `y` of the first `n` rows is row `y`. */
  lemma {:induction false} MosaicRowOf(img: Ppm.Image, n: nat, y: int)
    requires MosaicInput(img) && n <= img.height && 0 <= y < n
    ensures MosaicRows(img, n)[y] == MosaicRow(img, y)
  {
    if y < n - 1 {
      MosaicRowOf(img, n - 1, y);
    }
  }

  /** `ppm_to_bayer`: a one-plane image of the same size with maxval 65535, each sample the
      rescaled average its block position calls for. */
  function PpmToBayer(img: Ppm.Image): (r: Pgm.ImagePGM)
    requires MosaicInput(img)
    ensures Pgm.Valid(r) && r.width == img.width && r.height == img.height
    ensures r.maxval == BayerMaxval
  {
    FlattenLength(MosaicRows(img, img.height), img.width);
    Pgm.ImagePGM(img.width, img.height, BayerMaxval, Flatten(MosaicRows(img, img.height)))
  }

  /** Pixel `(x, y)` of the mosaic is the mosaic sample of `(x, y)`. */
  lemma MosaicPixel(img: Ppm.Image, x: int, y: int)
    requires MosaicInput(img) && 0 <= x < img.width && 0 <= y < img.height
    ensures var r := PpmToBayer(img);
      |r.ch| == img.width * img.height && At(r.ch, img.width, img.height, x, y) == MosaicAt(img, x, y)
  {
    FlattenAt(MosaicRows(img, img.height), img.width, x, y);
    MosaicRowOf(img, img.height, y);
  }

  /** Within a block, the position of a pixel is its offset from the block's top-left. */
  lemma MosaicAtCorner(img: Ppm.Image, x: int, y: int, dx: int, dy: int)
    requires MosaicInput(img) && BlockBase(x, y, img.width, img.height)
    requires 0 <= dx < 2 && 0 <= dy < 2
    ensures x + dx < img.width && y + dy < img.height
    ensures MosaicAt(img, x + dx, y + dy) == BlockSample(img, x, y, dx, dy)
  {
    EvenStep(x, dx);
    EvenStep(y, dy);
  }

  /** Pixel `(dx, dy)` of the block at `(x, y)` of the mosaic is the mosaic sample of that
      pixel. */
  lemma MosaicCorner(img: Ppm.Image, x: int, y: int, dx: int, dy: int)
    requires MosaicInput(img) && BlockBase(x, y, img.width, img.height)
    requires 0 <= dx < 2 && 0 <= dy < 2
    ensures Corner(PpmToBayer(img).ch, img.width, img.height, x, y, dx, dy) == BlockSample(img, x, y, dx, dy)
  {
    MosaicAtCorner(img, x, y, dx, dy);
    MosaicPixel(img, x + dx, y + dy);
    CornerAt(PpmToBayer(img).ch, img.width, img.height, x, y, dx, dy, MosaicAt(img, x + dx, y + dy));
  }

  /** What the block loop of `ppm_to_bayer` writes for the block at `(x, y)`: exactly the
      rescaled red average, top green average, bottom green average and blue average at its
      four positions. */
  lemma MosaicBlock(img: Ppm.Image, x: int, y: int)
    requires MosaicInput(img) && BlockBase(x, y, img.width, img.height)
    ensures var m := img.maxval;
      Quad(PpmToBayer(img).ch, img.width, img.height, x, y)
      == (Scale(RedAverage(img, x, y), m), Scale(TopGreen(img, x, y), m),
          Scale(BottomGreen(img, x, y), m), Scale(BlueAverage(img, x, y), m))
  {
    MosaicCorner(img, x, y, 0, 0);
    MosaicCorner(img, x, y, 1, 0);
    MosaicCorner(img, x, y, 0, 1);
    MosaicCorner(img, x, y, 1, 1);
    QuadOf(PpmToBayer(img).ch, img.width, img.height, x, y,
      BlockSample(img, x, y, 0, 0), BlockSample(img, x, y, 1, 0),
      BlockSample(img, x, y, 0, 1), BlockSample(img, x, y, 1, 1));
  }

  /** The images `bayer_to_ppm` handles: whole blocks. */
  predicate DemosaicInput(b: Pgm.ImagePGM) {
    Pgm.Valid(b) && EvenSize(b.width, b.height)
  }

  /** The three samples the block replication gives pixel `(x, y)`: the block's red sensel,
      the top-right green sensel in the left column and the bottom-left one in the right
      column, and the block's blue sensel. */
  function DemosaicAt(b: Pgm.ImagePGM, x: int, y: int): (t: (u16, u16, u16))
    requires DemosaicInput(b) && 0 <= x < b.width && 0 <= y < b.height
    ensures var w, h, px, py := b.width, b.height, x - x % 2, y - y % 2;
      px + 1 < w && py + 1 < h
      && t.0 == At(b.ch, w, h, px, py) && t.2 == At(b.ch, w, h, px + 1, py + 1)
    ensures x % 2 == 0 ==> x + 1 < b.width && t.1 == At(b.ch, b.width, b.height, x + 1, y - y % 2)
    ensures x % 2 == 1 ==> y - y % 2 + 1 < b.height && t.1 == At(b.ch, b.width, b.height, x - 1, y - y % 2 + 1)
  {
    var px, py := x - x % 2, y - y % 2;
    BaseOf(x, y, b.width, b.height);
    var w, h := b.width, b.height;
    (Corner(b.ch, w, h, px, py, 0, 0),
     if x % 2 == 0 then Corner(b.ch, w, h, px, py, 1, 0) else Corner(b.ch, w, h, px, py, 0, 1),
     Corner(b.ch, w, h, px, py, 1, 1))
  }

  /** Row `y` of plane `c` of the replication. */
  function DemosaicRow(b: Pgm.ImagePGM, c: int, y: int): (row: seq<u16>)
    requires DemosaicInput(b) && 0 <= c < 3 && 0 <= y < b.height
    ensures |row| == b.width
  {
    seq(b.width, x requires 0 <= x < b.width =>
      var t := DemosaicAt(b, x, y);
      if c == 0 then t.0 else if c == 1 then t.1 else t.2)
  }

  /** The first `n` rows of plane `c` of the replication. */
  function DemosaicRows(b: Pgm.ImagePGM, c: int, n: nat): (rows: seq<seq<u16>>)
    requires DemosaicInput(b) && 0 <= c < 3 && n <= b.height
    ensures |rows| == n && Uniform(rows, b.width)
  {
    if n == 0 then [] else DemosaicRows(b, c, n - 1) + [DemosaicRow(b, c, n - 1)]
  }

  /** Row `y` of the first `n` rows is row `y`. */
  lemma {:induction false} DemosaicRowOf(b: Pgm.ImagePGM, c: int, n: nat, y: int)
    requires DemosaicInput(b) && 0 <= c < 3 && n <= b.height && 0 <= y < n
    ensures DemosaicRows(b, c, n)[y] == DemosaicRow(b, c, y)
  {
    if y < n - 1 {
      DemosaicRowOf(b, c, n - 1, y);
    }
  }

  /** `bayer_to_ppm` up to the interpolation pass: a three-plane image of the same size and
      maxval filled block by block. */
  function BayerToPpm(b: Pgm.ImagePGM): (r: Ppm.Image)
    requires DemosaicInput(b)
    ensures Ppm.Valid(r) && Ppm.HeaderOf(r) == Pgm.HeaderOf(b)
  {
    FlattenLength(DemosaicRows(b, 0, b.height), b.width);
    FlattenLength(DemosaicRows(b, 1, b.height), b.width);
    FlattenLength(DemosaicRows(b, 2, b.height), b.width);
    Ppm.Image(b.width, b.height, b.maxval,
      Flatten(DemosaicRows(b, 0, b.height)), Flatten(DemosaicRows(b, 1, b.height)), Flatten(DemosaicRows(b, 2, b.height)))
  }

  /** Pixel `(x, y)` of each plane of the replication is the replicated sample of
      `(x, y)`. */
  lemma DemosaicPixel(b: Pgm.ImagePGM, x: int, y: int)
    requires DemosaicInput(b) && 0 <= x < b.width && 0 <= y < b.height
    ensures var r, w, h, t := BayerToPpm(b), b.width, b.height, DemosaicAt(b, x, y);
      |r.ch1| == w * h
      && At(r.ch1, w, h, x, y) == t.0 && At(r.ch2, w, h, x, y) == t.1 && At(r.ch3, w, h, x, y) == t.2
  {
    FlattenAt(DemosaicRows(b, 0, b.height), b.width, x, y);
    FlattenAt(DemosaicRows(b, 1, b.height), b.width, x, y);
    FlattenAt(DemosaicRows(b, 2, b.height), b.width, x, y);
    DemosaicRowOf(b, 0, b.height, y);
    DemosaicRowOf(b, 1, b.height, y);
    DemosaicRowOf(b, 2, b.height, y);
  }

  /** Within a block, the replicated samples depend only on the position in the block. */
  lemma DemosaicAtCorner(b: Pgm.ImagePGM, x: int, y: int, dx: int, dy: int)
    requires DemosaicInput(b) && BlockBase(x, y, b.width, b.height)
    requires 0 <= dx < 2 && 0 <= dy < 2
    ensures x + dx < b.width && y + dy < b.height
    ensures var w, h := b.width, b.height;
      DemosaicAt(b, x + dx, y + dy) == (Corner(b.ch, w, h, x, y, 0, 0),
        if dx == 0 then Corner(b.ch, w, h, x, y, 1, 0) else Corner(b.ch, w, h, x, y, 0, 1),
        Corner(b.ch, w, h, x, y, 1, 1))
  {
    EvenStep(x, dx);
    EvenStep(y, dy);
  }

  /** Pixel `(dx, dy)` of the block at `(x, y)` of the replication is the replicated
      sample of that pixel. */
  lemma DemosaicCorner(b: Pgm.ImagePGM, x: int, y: int, dx: int, dy: int)
    requires DemosaicInput(b) && BlockBase(x, y, b.width, b.height)
    requires 0 <= dx < 2 && 0 <= dy < 2
    ensures var r, w, h := BayerToPpm(b), b.width, b.height;
      Corner(r.ch1, w, h, x, y, dx, dy) == Corner(b.ch, w, h, x, y, 0, 0)
      && Corner(r.ch2, w, h, x, y, dx, dy)
         == (if dx == 0 then Corner(b.ch, w, h, x, y, 1, 0) else Corner(b.ch, w, h, x, y, 0, 1))
      && Corner(r.ch3, w, h, x, y, dx, dy) == Corner(b.ch, w, h, x, y, 1, 1)
  {
    var r, w, h := BayerToPpm(b), b.width, b.height;
    DemosaicAtCorner(b, x, y, dx, dy);
    DemosaicPixel(b, x + dx, y + dy);
    var t := DemosaicAt(b, x + dx, y + dy);
    CornerAt(r.ch1, w, h, x, y, dx, dy, t.0);
    CornerAt(r.ch2, w, h, x, y, dx, dy, t.1);
    CornerAt(r.ch3, w, h, x, y, dx, dy, t.2);
  }

  /** What the block loop of `bayer_to_ppm` writes for the block at `(x, y)`: the red
      sensel in all four positions of the first plane, the blue sensel in all four of the
      third, and in the second plane the top-right sensel in the left column and the
      bottom-left sensel in the right column. */
  lemma DemosaicBlock(b: Pgm.ImagePGM, x: int, y: int)
    requires DemosaicInput(b) && BlockBase(x, y, b.width, b.height)
    ensures var r, w, h := BayerToPpm(b), b.width, b.height;
      var q := Quad(b.ch, w, h, x, y);
      Quad(r.ch1, w, h, x, y) == (q.0, q.0, q.0, q.0)
      && Quad(r.ch2, w, h, x, y) == (q.1, q.2, q.1, q.2)
      && Quad(r.ch3, w, h, x, y) == (q.3, q.3, q.3, q.3)
  {
    var r, w, h := BayerToPpm(b), b.width, b.height;
    var q := Quad(b.ch, w, h, x, y);
    DemosaicCorner(b, x, y, 0, 0);
    DemosaicCorner(b, x, y, 1, 0);
    DemosaicCorner(b, x, y, 0, 1);
    DemosaicCorner(b, x, y, 1, 1);
    QuadOf(r.ch1, w, h, x, y, q.0, q.0, q.0, q.0);
    QuadOf(r.ch2, w, h, x, y, q.1, q.2, q.1, q.2);
    QuadOf(r.ch3, w, h, x, y, q.3, q.3, q.3, q.3);
  }

  /** Mosaicking then replicating fills each block of the first plane with the rescaled red
      average, of the third with the rescaled blue average, and the second plane's left
      column with the rescaled top green average and its right column with the bottom one. */
  lemma MosaicThenDemosaic(img: Ppm.Image, x: int, y: int)
    requires MosaicInput(img) && BlockBase(x, y, img.width, img.height)
    ensures DemosaicInput(PpmToBayer(img))
    ensures var r, w, h, m := BayerToPpm(PpmToBayer(img)), img.width, img.height, img.maxval;
      var red, top, bottom, blue := Scale(RedAverage(img, x, y), m), Scale(TopGreen(img, x, y), m),
        Scale(BottomGreen(img, x, y), m), Scale(BlueAverage(img, x, y), m);
      r.maxval == BayerMaxval
      && Quad(r.ch1, w, h, x, y) == (red, red, red, red)
      && Quad(r.ch2, w, h, x, y) == (top, bottom, top, bottom)
      && Quad(r.ch3, w, h, x, y) == (blue, blue, blue, blue)
  {
    MosaicBlock(img, x, y);
    DemosaicBlock(PpmToBayer(img), x, y);
  }

  /** A 16-bit sensor image survives replication then mosaicking at its red and blue
      sensels; both green sensels of a block become the floor average of the two. */
  lemma DemosaicThenMosaic(b: Pgm.ImagePGM, x: int, y: int)
    requires DemosaicInput(b) && b.maxval == BayerMaxval && BlockBase(x, y, b.width, b.height)
    ensures MosaicInput(BayerToPpm(b))
    ensures var q := Quad(b.ch, b.width, b.height, x, y);
      var g := Avg2(q.1, q.2);
      Quad(PpmToBayer(BayerToPpm(b)).ch, b.width, b.height, x, y) == (q.0, g, g, q.3)
  {
    var d := BayerToPpm(b);
    var q := Quad(b.ch, b.width, b.height, x, y);
    DemosaicBlock(b, x, y);
    MosaicBlock(d, x, y);
    assert RedAverage(d, x, y) == q.0;
    assert TopGreen(d, x, y) == Avg2(q.1, q.2);
    assert BottomGreen(d, x, y) == Avg2(q.1, q.2);
    assert BlueAverage(d, x, y) == q.3;
  }
}
