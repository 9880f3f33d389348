/**
 * Pixels of the encoder (`RGBA8`) and the perceptual distance `colordiff`
 * that both the importance map and its refinement are built on.
 */
module Colors {
  import opened Arith

  /** One 8-bit channel, Rust's `u8`. */
  type Byte = x: int | 0 <= x < 256

  /** `RGBA8`: four 8-bit channels, alpha not premultiplied. */
  datatype Rgba = Rgba(r: Byte, g: Byte, b: Byte, a: Byte)

  /** `ImgVec<RGBA8>`: a `width`×`height` image, pixels row by row (stride padding is not modelled). */
  datatype Image = Image(width: nat, height: nat, pixels: seq<Rgba>)
  {
    predicate Valid()
    {
      |pixels| == width * height
    }
  }

  /** The distance between two pixels of which one is fully transparent: 255·255·6. */
  const MaxDiff: nat := 255 * 255 * 6

  function Sq(d: int): nat
  {
    d * d
  }

  /** A square of a channel difference is at most 255². */
  lemma SqChannelBound(x: Byte, y: Byte)
    ensures Sq(x - y) <= 255 * 255
  {
    var d := if x >= y then x - y else y - x;
    assert Sq(x - y) == d * d;
    MulLe(d, 255, d);
    MulLe(d, 255, 255);
  }

  /**
   * Weighted squared distance of the colour channels (red 2, green 3, blue 1);
   * any pixel with alpha 0 is as far as possible from everything. The Rust
   * code computes each square in `i32` and the sum in `u32`: the bound below
   * shows neither can overflow, so unbounded integers model it exactly.
   */
  function ColorDiff(x: Rgba, y: Rgba): (d: nat)
    ensures d <= MaxDiff
    ensures x.a == 0 || y.a == 0 ==> d == MaxDiff
  {
    SqChannelBound(x.r, y.r);
    SqChannelBound(x.g, y.g);
    SqChannelBound(x.b, y.b);
    if x.a == 0 || y.a == 0 then MaxDiff
    else Sq(x.r - y.r) * 2 + Sq(x.g - y.g) * 3 + Sq(x.b - y.b)
  }

  /** The distance does not depend on the order of its arguments. */
  lemma ColorDiffSymmetric(x: Rgba, y: Rgba)
    ensures ColorDiff(x, y) == ColorDiff(y, x)
  {
    assert Sq(x.r - y.r) == Sq(y.r - x.r);
    assert Sq(x.g - y.g) == Sq(y.g - x.g);
    assert Sq(x.b - y.b) == Sq(y.b - x.b);
  }

  /**
   * The distance is zero exactly when neither pixel is fully transparent and
   * their colour channels agree (alpha values other than 0 are not compared);
   * in particular a visible pixel is at distance 0 from itself.
   */
  lemma ColorDiffZeroIff(x: Rgba, y: Rgba)
    ensures ColorDiff(x, y) == 0 <==> x.a != 0 && y.a != 0 && x.r == y.r && x.g == y.g && x.b == y.b
  {
    if x.a != 0 && y.a != 0 && ColorDiff(x, y) == 0 {
      assert Sq(x.r - y.r) == 0 && Sq(x.g - y.g) == 0 && Sq(x.b - y.b) == 0;
      SqZero(x.r - y.r);
      SqZero(x.g - y.g);
      SqZero(x.b - y.b);
    }
  }

  lemma SqZero(d: int)
    ensures Sq(d) == 0 <==> d == 0
  {
    var e := if d >= 0 then d else -d;
    assert Sq(d) == e * e;
    if e > 0 {
      MulLe(1, e, e);
    }
  }
}
