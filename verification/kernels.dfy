/** The integer and real kernels the tools share: the saturating clamp, the 8-bit `CLIP`,
    the edge-replicating neighbour fetch, the cubic (Catmull-Rom) kernel and the bicubic
    sample built from sixteen fetched neighbours. */
module Kernels {
  import opened Samples
  import opened Grid

  /** `sat(X, L0, L1)`: below `L0` gives `L0`, above `L1` gives `L1`, otherwise `X`. */
  function Sat(x: int, lo: int, hi: int): (r: int)
    ensures lo <= hi ==> lo <= r <= hi
    ensures lo <= x <= hi ==> r == x
  {
    if x < lo then lo else if x > hi then hi else x
  }

  function Abs(v: int): nat {
    if v < 0 then -v else v
  }

  function Min(a: int, b: int): int {
    if a <= b then a else b
  }

  function Max(a: int, b: int): int {
    if a >= b then a else b
  }

  /** For a non-empty range the clamp is the point of the range nearest to `x`. */
  lemma SatNearest(x: int, lo: int, hi: int, z: int)
    requires lo <= z <= hi
    ensures Abs(Sat(x, lo, hi) - x) <= Abs(z - x)
  {
  }

  /** Clamping is monotone and clamping twice changes nothing. */
  lemma SatMonotone(x: int, x2: int, lo: int, hi: int)
    requires lo <= hi && x <= x2
    ensures Sat(x, lo, hi) <= Sat(x2, lo, hi)
    ensures Sat(Sat(x, lo, hi), lo, hi) == Sat(x, lo, hi)
  {
  }

  /** `CLIP(X)`: the 8-bit range [0, 255]. */
  function Clip(x: int): (r: int)
    ensures 0 <= r <= 255
    ensures 0 <= x <= 255 ==> r == x
  {
    if x > 255 then 255 else if x < 0 then 0 else x
  }

  /** `CLIP` is `sat` with the bounds 0 and 255. */
  lemma ClipIsSat(x: int)
    ensures Clip(x) == Sat(x, 0, 255)
  {
  }

  /** The offset `get_pixel` reads: both coordinates clamped into the plane. It is always
      inside the plane, and it is the plain offset for an in-range pixel. */
  function FetchOffset(x: int, y: int, width: int, height: int): (i: nat)
    requires width >= 1 && height >= 1
    ensures i < width * height
    ensures 0 <= x < width && 0 <= y < height ==> i == y * width + x
  {
    var cx, cy := Sat(x, 0, width - 1), Sat(y, 0, height - 1);
    OffsetInRange(cx, cy, width, height);
    cy * width + cx
  }

  /** `get_pixel` / `getPixel`: the sample at the clamped coordinates. Inside the plane that
      is the pixel itself; above and to the left of the plane it is the top-left pixel. */
  function GetPixel(src: seq<u16>, x: int, y: int, width: int, height: int): (v: u16)
    requires width >= 1 && height >= 1 && |src| == width * height
    ensures 0 <= x < width && 0 <= y < height ==> v == src[y * width + x]
    ensures x < 0 && y < 0 ==> v == src[0]
  {
    src[FetchOffset(x, y, width, height)]
  }

  /** Outside the plane the fetch replicates the nearest edge pixel; inside it reads the
      pixel itself. */
  lemma GetPixelEdge(src: seq<u16>, x: int, y: int, width: int, height: int)
    requires width >= 1 && height >= 1 && |src| == width * height
    ensures GetPixel(src, x, y, width, height)
      == At(src, width, height, Sat(x, 0, width - 1), Sat(y, 0, height - 1))
    ensures 0 <= x < width && 0 <= y < height ==> GetPixel(src, x, y, width, height) == At(src, width, height, x, y)
  {
    OffsetIsProduct(Sat(x, 0, width - 1), Sat(y, 0, height - 1), width);
  }

  /** `bicubic_filter` over the reals: the Catmull-Rom cubic through the samples `b` (at
      t = 0) and `c` (at t = 1), with `a` and `d` as the outer neighbours. */
  function BicubicFilter(a: real, b: real, c: real, d: real, t: real): (v: real)
    ensures t == 0.0 ==> v == b
    ensures t == 1.0 ==> v == c
  {
    var ca := -a / 2.0 + (3.0 * b) / 2.0 - (3.0 * c) / 2.0 + d / 2.0;
    var cb := a - (5.0 * b) / 2.0 + 2.0 * c - d / 2.0;
    var cc := -a / 2.0 + c / 2.0;
    var cd := b;
    ca * t * t * t + cb * t * t + cc * t + cd
  }

  /** The kernel interpolates: it passes through `b` at 0 and through `c` at 1. */
  lemma FilterEndpoints(a: real, b: real, c: real, d: real)
    ensures BicubicFilter(a, b, c, d, 0.0) == b
    ensures BicubicFilter(a, b, c, d, 1.0) == c
  {
  }

  /** Four equal samples give that value at every `t`. */
  lemma FilterConstant(k: real, t: real)
    ensures BicubicFilter(k, k, k, k, t) == k
  {
  }

  /** Samples on a line are reproduced: the kernel is exact for linear data. */
  lemma FilterLinear(a: real, s: real, t: real)
    ensures BicubicFilter(a, a + s, a + 2.0 * s, a + 3.0 * s, t) == a + s + s * t
  {
  }

  /** `(int)` applied to a float: truncation toward zero. */
  function Trunc(v: real): (r: int)
    ensures Abs(r) as real <= (if v < 0.0 then -v else v)
    ensures (if v < 0.0 then -v else v) < Abs(r) as real + 1.0
    ensures v >= 0.0 ==> r >= 0
    ensures v < 0.0 ==> r <= 0
  {
    if v >= 0.0 then v.Floor else -((-v).Floor)
  }

  /** Neighbour `(i, j)` of the 4x4 block around the base pixel `(x, y)`, fetched with edge
      replication: columns and rows run from one before to two after the base. */
  function Neighbour(src: seq<u16>, width: int, height: int, x: int, y: int, i: int, j: int): u16
    requires width >= 1 && height >= 1 && |src| == width * height
  {
    GetPixel(src, x + i - 1, y + j - 1, width, height)
  }

  /** Row `j` of the block filtered horizontally at the fraction `fx`. */
  function FilteredRow(src: seq<u16>, width: int, height: int, x: int, y: int, j: int, fx: real): real
    requires width >= 1 && height >= 1 && |src| == width * height
  {
    BicubicFilter(Neighbour(src, width, height, x, y, 0, j) as real, Neighbour(src, width, height, x, y, 1, j) as real,
                  Neighbour(src, width, height, x, y, 2, j) as real, Neighbour(src, width, height, x, y, 3, j) as real, fx)
  }

  /** The value before the final clamp: the four filtered rows filtered vertically. */
  function BicubicValue(src: seq<u16>, width: int, height: int, x: int, y: int, fx: real, fy: real): real
    requires width >= 1 && height >= 1 && |src| == width * height
  {
    BicubicFilter(FilteredRow(src, width, height, x, y, 0, fx), FilteredRow(src, width, height, x, y, 1, fx),
                  FilteredRow(src, width, height, x, y, 2, fx), FilteredRow(src, width, height, x, y, 3, fx), fy)
  }

  /** `bicubic`, from the integer base pixel `(x, y)` and the fractions `fx`, `fy` on: the
      truncated value clamped to [0, maxval], then converted to `u_short` (reduced modulo
      2^16). The conversion changes nothing unless the image's maxval is itself outside the
      16-bit range. */
  function Bicubic(src: seq<u16>, width: int, height: int, maxval: int, x: int, y: int, fx: real, fy: real): (r: u16)
    requires width >= 1 && height >= 1 && |src| == width * height
    ensures 0 <= maxval < 0x1_0000 ==> r <= maxval
  {
    Sat(Trunc(BicubicValue(src, width, height, x, y, fx, fy)), 0, maxval) % 0x1_0000
  }

  /** A plane of one value is reproduced (clamped to [0, maxval], as a `u_short`) at every
      position. */
  lemma BicubicConstant(src: seq<u16>, width: int, height: int, maxval: int, x: int, y: int, fx: real, fy: real, k: u16)
    requires width >= 1 && height >= 1 && |src| == width * height
    requires forall i :: 0 <= i < |src| ==> src[i] == k
    ensures Bicubic(src, width, height, maxval, x, y, fx, fy) == Sat(k, 0, maxval) % 0x1_0000
    ensures 0 <= maxval < 0x1_0000 ==> Bicubic(src, width, height, maxval, x, y, fx, fy) == Sat(k, 0, maxval)
  {
    forall j | 0 <= j < 4
      ensures FilteredRow(src, width, height, x, y, j, fx) == k as real
    {
      FilterConstant(k as real, fx);
    }
    FilterConstant(k as real, fy);
  }

  /** With both fractions zero the result is the base pixel itself (clamped to [0, maxval],
      as a `u_short`). */
  lemma BicubicAtBase(src: seq<u16>, width: int, height: int, maxval: int, x: int, y: int)
    requires width >= 1 && height >= 1 && |src| == width * height
    ensures Bicubic(src, width, height, maxval, x, y, 0.0, 0.0) == Sat(GetPixel(src, x, y, width, height), 0, maxval) % 0x1_0000
    ensures 0 <= maxval < 0x1_0000 ==>
      Bicubic(src, width, height, maxval, x, y, 0.0, 0.0) == Sat(GetPixel(src, x, y, width, height), 0, maxval)
  {
    FilterEndpoints(FilteredRow(src, width, height, x, y, 0, 0.0), FilteredRow(src, width, height, x, y, 1, 0.0),
                    FilteredRow(src, width, height, x, y, 2, 0.0), FilteredRow(src, width, height, x, y, 3, 0.0));
    FilterEndpoints(Neighbour(src, width, height, x, y, 0, 1) as real, Neighbour(src, width, height, x, y, 1, 1) as real,
                    Neighbour(src, width, height, x, y, 2, 1) as real, Neighbour(src, width, height, x, y, 3, 1) as real);
  }
}
