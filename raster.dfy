/** Arithmetic on the raster shared by the three encoders: row offsets,
    powers of two, and the rolling plane bit of the two row modes. */
module Raster {

  function Pow2(i: nat): (p: nat)
    ensures p >= 1
  {
    if i == 0 then 1 else 2 * Pow2(i - 1)
  }

  lemma Pow2Monotone(i: nat, j: nat)
    requires i <= j
    ensures Pow2(i) <= Pow2(j)
  {
  }

  lemma MulMonotone(a: nat, b: nat, c: nat)
    requires a <= b
    ensures a * c <= b * c
  {
  }

  /** Row y of an image `width` pixels wide and `height` rows high lies
      inside its `width * height` indices. */
  lemma RowFits(width: nat, height: nat, y: nat)
    requires y < height
    ensures y * width + width <= width * height
  {
    MulMonotone(y + 1, height, width);
  }

  /** The plane bit of the row modes: 1, 2, 4, 8, 16 or 32. */
  predicate IsPlane(plane: nat) {
    plane == 1 || plane == 2 || plane == 4 || plane == 8 || plane == 16 || plane == 32
  }

  /** After each row the plane doubles (`n <<= 1`), except that 32 goes
      back to 1. */
  function NextPlane(plane: nat): nat {
    if plane == 32 then 1 else 2 * plane
  }

  /** Starting from 1, the plane of row y is bit y mod 6, and it is 32
      exactly on the rows with y mod 6 = 5. */
  lemma {:induction false} PlaneOfRow(y: nat)
    ensures IsPlane(Pow2(y % 6))
    ensures Pow2(y % 6) == 32 <==> y % 6 == 5
    ensures NextPlane(Pow2(y % 6)) == Pow2((y + 1) % 6)
  {
    var r := y % 6;
    assert r == 0 || r == 1 || r == 2 || r == 3 || r == 4 || r == 5;
    assert Pow2(1) == 2 && Pow2(2) == 4 && Pow2(3) == 8 && Pow2(4) == 16 && Pow2(5) == 32;
    if r == 5 {
      assert (y + 1) % 6 == 0;
    } else {
      assert (y + 1) % 6 == r + 1;
    }
  }

  /** All indices of s are equal. */
  predicate Uniform(s: seq<nat>) {
    forall k :: 0 <= k < |s| ==> s[k] == s[0]
  }

  /** Every pixel of s names a colour below 256 whose channels lie in the
      palette. */
  predicate Indexes(palette: seq<nat>, s: seq<nat>) {
    forall k :: 0 <= k < |s| ==> s[k] < 256 && 3 * s[k] + 2 < |palette|
  }

  /** The image as the pixel indices of `height` rows of `width` pixels. */
  predicate Image(palette: seq<nat>, data: seq<nat>, width: nat, height: nat) {
    width >= 1 && |data| == width * height && Indexes(palette, data)
  }

  function RowOf(data: seq<nat>, width: nat, height: nat, y: nat): (row: seq<nat>)
    requires width >= 1 && |data| == width * height && y < height
    ensures |row| == width
  {
    RowFits(width, height, y);
    data[y * width .. y * width + width]
  }

  lemma RowIndexes(palette: seq<nat>, data: seq<nat>, width: nat, height: nat, y: nat)
    requires Image(palette, data, width, height) && y < height
    ensures Indexes(palette, RowOf(data, width, height, y))
  {
    RowFits(width, height, y);
    var row := RowOf(data, width, height, y);
    forall k | 0 <= k < |row|
      ensures row[k] < 256 && 3 * row[k] + 2 < |palette|
    {
      assert row[k] == data[y * width + k];
    }
  }
}
