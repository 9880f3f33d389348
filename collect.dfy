/**
 * The collector's last step before a frame is queued: alpha is made binary
 * with an 8×8 ordered-dither threshold, so that the GIF's single transparent
 * colour can represent it. (The Lanczos resize that precedes it is not part
 * of this model.)
 */
module Collect {
  import opened Colors

  /** Entry `k` (row-major, the last case being entry 63) of the 8×8 ordered-dither matrix: a value 0..63. */
  function Bayer(k: nat): (v: nat)
    requires k < 64
    ensures v < 64
  {
    match k
    case 0 => 0 case 1 => 48 case 2 => 12 case 3 => 60 case 4 => 3 case 5 => 51 case 6 => 15 case 7 => 63
    case 8 => 32 case 9 => 16 case 10 => 44 case 11 => 28 case 12 => 35 case 13 => 19 case 14 => 47 case 15 => 31
    case 16 => 8 case 17 => 56 case 18 => 4 case 19 => 52 case 20 => 11 case 21 => 59 case 22 => 7 case 23 => 55
    case 24 => 40 case 25 => 24 case 26 => 36 case 27 => 20 case 28 => 43 case 29 => 27 case 30 => 39 case 31 => 23
    case 32 => 2 case 33 => 50 case 34 => 14 case 35 => 62 case 36 => 1 case 37 => 49 case 38 => 13 case 39 => 61
    case 40 => 34 case 41 => 18 case 42 => 46 case 43 => 30 case 44 => 33 case 45 => 17 case 46 => 45 case 47 => 29
    case 48 => 10 case 49 => 58 case 50 => 6 case 51 => 54 case 52 => 9 case 53 => 57 case 54 => 5 case 55 => 53
    case 56 => 42 case 57 => 26 case 58 => 38 case 59 => 22 case 60 => 41 case 61 => 25 case 62 => 37 case _ => 21
  }

  /**
   * The dither threshold of entry `k`, `Bayer(k)*2+8`: an even value from 8
   * to 134, so that alpha below 8 always disappears and alpha of 134 and
   * more always shows.
   */
  function Dither(k: nat): (t: Byte)
    requires k < 64
    ensures 8 <= t <= 134 && t % 2 == 0
  {
    Bayer(k) * 2 + 8
  }

  /** The threshold for the pixel in column `x` of row `y`: the matrix tiles the image. */
  function DitherAt(x: nat, y: nat): (t: Byte)
    ensures 8 <= t <= 134 && t % 2 == 0
  {
    Dither((y % 8) * 8 + x % 8)
  }

  /** What the loop does to one pixel: alpha below 255 becomes 0 or 255 by the threshold. */
  function BinaryAlpha(px: Rgba, x: nat, y: nat): Rgba
  {
    if px.a < 255 then px.(a := if px.a < DitherAt(x, y) then 0 else 255) else px
  }

  /**
   * Binarisation leaves only alpha 0 or 255 and never touches colour; opaque
   * pixels are unchanged, alpha under 8 always becomes 0 and alpha from 134
   * up always becomes 255, wherever the pixel is.
   */
  lemma BinaryAlphaFacts(px: Rgba, x: nat, y: nat)
    ensures var q := BinaryAlpha(px, x, y);
      (q.a == 0 || q.a == 255) &&
      q.r == px.r && q.g == px.g && q.b == px.b &&
      (px.a == 255 ==> q == px) &&
      (px.a < 8 ==> q.a == 0) &&
      (px.a >= 134 ==> q.a == 255)
  {
  }

  /** The inner loop: makes the alpha of row `y` binary, leaving the other rows alone. */
  method BinarizeRow(img: array2<Rgba>, y: nat)
    requires y < img.Length0
    modifies img
    ensures forall x :: 0 <= x < img.Length1 ==> img[y, x] == BinaryAlpha(old(img[y, x]), x, y)
    ensures forall j, x :: 0 <= j < img.Length0 && j != y && 0 <= x < img.Length1 ==> img[j, x] == old(img[j, x])
  {
    var x := 0;
    while x < img.Length1
      invariant 0 <= x <= img.Length1
      invariant forall i :: 0 <= i < x ==> img[y, i] == BinaryAlpha(old(img[y, i]), i, y)
      invariant forall i :: x <= i < img.Length1 ==> img[y, i] == old(img[y, i])
      invariant forall j, i :: 0 <= j < img.Length0 && j != y && 0 <= i < img.Length1 ==> img[j, i] == old(img[j, i])
    {
      var px := img[y, x];
      if px.a < 255 {
        img[y, x] := px.(a := if px.a < Dither((y % 8) * 8 + x % 8) then 0 else 255);
      }
      x := x + 1;
    }
  }

  /**
   * Makes the alpha of `img` (rows × columns) binary in place, row by row,
   * each pixel against the threshold of its position in the 8×8 tiling.
   */
  method MakeAlphaBinary(img: array2<Rgba>)
    modifies img
    ensures forall y, x :: 0 <= y < img.Length0 && 0 <= x < img.Length1 ==>
      img[y, x] == BinaryAlpha(old(img[y, x]), x, y)
  {
    var y := 0;
    while y < img.Length0
      invariant 0 <= y <= img.Length0
      invariant forall j, x :: 0 <= j < y && 0 <= x < img.Length1 ==> img[j, x] == BinaryAlpha(old(img[j, x]), x, j)
      invariant forall j, x :: y <= j < img.Length0 && 0 <= x < img.Length1 ==> img[j, x] == old(img[j, x])
    {
      BinarizeRow(img, y);
      y := y + 1;
    }
  }
}
