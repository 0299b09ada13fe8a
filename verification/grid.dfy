/** Row-major addressing of a plane: pixel (x, y) of a plane `width` samples wide lives at
    offset `y * width + x`, the expression every loop of the program uses. */
module Grid {
  import opened Samples

  /** `a <= b` scales by a non-negative factor. */
  lemma MulLe(a: int, b: int, c: int)
    requires a <= b && 0 <= c
    ensures a * c <= b * c
  {
    assert b * c - a * c == (b - a) * c;
  }

  /** The offset of an in-range pixel lies inside the plane. */
  lemma OffsetInRange(x: int, y: int, width: int, height: int)
    requires 0 <= x < width && 0 <= y < height
    ensures 0 <= y * width + x < width * height
  {
    MulLe(0, y, width);
    MulLe(y + 1, height, width);
    assert (y + 1) * width == y * width + width;
  }

  /** Division by the width recovers the coordinates from an offset. */
  lemma {:induction false} CoordinatesOfOffset(x: int, y: int, width: int)
    requires 0 <= x < width && 0 <= y
    ensures (y * width + x) / width == y && (y * width + x) % width == x
  {
    var n := y * width + x;
    var q, r := n / width, n % width;
    assert q * width + r == y * width + x;
    if q > y {
      MulLe(y + 1, q, width);
      assert false;
    } else if q < y {
      MulLe(q + 1, y, width);
      assert false;
    }
  }

  /** Every offset inside the plane is the offset of an in-range pixel. */
  lemma {:induction false} OffsetOfCoordinates(i: int, width: int, height: int)
    requires 0 <= width && 0 <= i < width * height
    ensures width > 0
    ensures 0 <= i % width < width && 0 <= i / width < height
    ensures (i / width) * width + i % width == i
  {
    var y := i / width;
    if y >= height {
      MulLe(height, y, width);
    }
  }

  /** The offset of pixel (x, y) counted row by row: each of the `y` rows above it adds
      `width`. */
  function Offset(x: int, y: nat, width: int): int {
    if y == 0 then x else Offset(x, y - 1, width) + width
  }

  /** Counting row by row gives the row-major offset `y * width + x`. */
  lemma {:induction false} OffsetIsProduct(x: int, y: nat, width: int)
    ensures Offset(x, y, width) == y * width + x
  {
    if y > 0 {
      OffsetIsProduct(x, y - 1, width);
      assert y * width == (y - 1) * width + width;
    }
  }

  /** Sample (x, y) of a plane of `width` by `height` samples. */
  function At(plane: seq<u16>, width: int, height: int, x: int, y: int): u16
    requires |plane| == width * height
    requires 0 <= x < width && 0 <= y < height
  {
    OffsetIsProduct(x, y, width);
    OffsetInRange(x, y, width, height);
    plane[Offset(x, y, width)]
  }

  /** Every row is `width` samples long. */
  predicate Uniform(rows: seq<seq<u16>>, width: int) {
    forall k :: 0 <= k < |rows| ==> |rows[k]| == width
  }

  /** Rows laid end to end, top row first: the row-major plane of an image built row by
      row. */
  function Flatten(rows: seq<seq<u16>>): seq<u16>
    decreases |rows|
  {
    if |rows| == 0 then [] else rows[0] + Flatten(rows[1..])
  }

  /** `height` rows of `width` samples make a plane of `width * height` samples. */
  lemma {:induction false} FlattenLength(rows: seq<seq<u16>>, width: int)
    requires Uniform(rows, width)
    ensures |Flatten(rows)| == |rows| * width
  {
    if |rows| > 0 {
      FlattenLength(rows[1..], width);
      assert |rows| * width == width + (|rows| - 1) * width;
    }
  }

  /** Sample (x, y) of the laid-out plane is sample x of row y. */
  lemma {:induction false} FlattenAt(rows: seq<seq<u16>>, width: int, x: int, y: int)
    requires Uniform(rows, width) && 0 <= x < width && 0 <= y < |rows|
    ensures |Flatten(rows)| == |rows| * width
    ensures At(Flatten(rows), width, |rows|, x, y) == rows[y][x]
  {
    FlattenLength(rows, width);
    if y > 0 {
      FlattenAt(rows[1..], width, x, y - 1);
      OffsetIsProduct(x, y - 1, width);
      OffsetInRange(x, y - 1, width, |rows| - 1);
      assert Offset(x, y, width) == width + Offset(x, y - 1, width);
    }
  }
}
