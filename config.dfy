/**
 * Encoding settings and the two rules derived from them alone: the colour
 * quality handed to the quantizer and the size every input frame is resized to.
 */
module Config {
  import opened Wrappers
  import opened Colors
  import opened Arith

  /** Number of repetitions of the animation. */
  datatype Repeat = Finite(times: nat) | Infinite

  /**
   * `width`/`height` are the user's maximum sizes (absent = no limit),
   * `quality` is 1-100 by convention but any `u8` is accepted.
   */
  datatype Settings = Settings(width: Option<nat>, height: Option<nat>, quality: Byte, fast: bool, repeat: Repeat)

  /**
   * The quality passed to the quantizer for frames after the first: the user's
   * quality scaled by 4/3 and capped at 100, so that frame differencing and
   * lossy compression absorb a lower quality before colours do.
   * (`u16` arithmetic: 255 * 4 fits, so no wrap-around happens.)
   */
  function ColorQuality(s: Settings): (q: Byte)
    ensures q <= 100
    ensures q == 100 <==> s.quality >= 75
    ensures q < 100 ==> 3 * q <= 4 * s.quality < 3 * q + 3
  {
    Min(s.quality * 4 / 3, 100)
  }

  /** A higher user quality never yields a lower colour quality. */
  lemma ColorQualityMonotone(s: Settings, t: Settings)
    requires s.quality <= t.quality
    ensures ColorQuality(s) <= ColorQuality(t)
  {
    DivMonotone(s.quality * 4, t.quality * 4, 3);
  }

  /** Area of the automatic size cap applied when no limit is given: 800×600. */
  const AutoArea: nat := 800 * 600

  /** The common divisor applied to both sides when there is no limit. */
  function AutoFactor(imgW: nat, imgH: nat): nat
  {
    (imgW * imgH + AutoArea) / AutoArea
  }

  /**
   * The size a frame of `imgW`×`imgH` is resized to, given the user's maximum
   * width and height. With no limit, images of 800×600 pixels of area or more
   * are shrunk by a common integer factor; with both limits each side is
   * capped; with one limit that side is capped and the other scaled by the
   * same ratio. `None` stands for the panic of the one-limit cases when the
   * limited side of the image is 0, the side the other one is divided by.
   */
  function DimensionsForImage(imgW: nat, imgH: nat, maxW: Option<nat>, maxH: Option<nat>): (r: Option<(nat, nat)>)
    ensures r.None? <==> (maxW.Some? && maxH.None? && imgW == 0) || (maxW.None? && maxH.Some? && imgH == 0)
    ensures r.Some? ==> r.value.0 <= imgW && r.value.1 <= imgH
  {
    match (maxW, maxH)
    case (None, None) =>
      var factor := AutoFactor(imgW, imgH);
      if factor > 1 then Some((Shrink(imgW, factor), Shrink(imgH, factor))) else Some((imgW, imgH))
    case (Some(w), Some(h)) =>
      Some((Min(w, imgW), Min(h, imgH)))
    case (Some(w), None) =>
      if imgW == 0 then None
      else
        var w' := Min(w, imgW);
        Some((w', Scale(imgH, w', imgW)))
    case (None, Some(h)) =>
      if imgH == 0 then None
      else
        var h' := Min(h, imgH);
        Some((Scale(imgW, h', imgH), h'))
  }

  /** `side / f` in `usize`: integer division never enlarges a side. */
  function Shrink(side: nat, f: nat): (r: nat)
    requires f > 0
    ensures r <= side
  {
    DivLe(side, f);
    side / f
  }

  /** `side * part / whole` in `usize`: scales a side by the ratio `part/whole`, rounding down. */
  function Scale(side: nat, part: nat, whole: nat): (r: nat)
    requires 0 < whole && part <= whole
    ensures r <= side
    ensures r * whole <= side * part < (r + 1) * whole
  {
    var q := side * part / whole;
    ScaledSide(side, part, whole, q);
    q
  }

  /** Scaling a side by `part/whole <= 1` does not enlarge it, and rounds down. */
  lemma ScaledSide(side: nat, part: nat, whole: nat, q: nat)
    requires 0 < whole && part <= whole && q == side * part / whole
    ensures q <= side
    ensures q * whole <= side * part < (q + 1) * whole
  {
    MulLe(part, whole, side);
    DivMonotone(side * part, side * whole, whole);
    MulLe(side, side, whole);
    DivUnique(side * whole, whole, side);
    DivBounds(side * part, whole);
  }

  /** With both limits set, each side is independently capped. */
  lemma BothLimits(imgW: nat, imgH: nat, w: nat, h: nat)
    ensures DimensionsForImage(imgW, imgH, Some(w), Some(h)) == Some((Min(w, imgW), Min(h, imgH)))
  {
  }

  /**
   * With a width limit only, the width is capped and the height follows the
   * image's aspect ratio, rounded down: h'/w' = imgH/imgW up to less than one row.
   */
  lemma WidthLimitKeepsAspect(imgW: nat, imgH: nat, w: nat)
    requires imgW > 0
    ensures var r := DimensionsForImage(imgW, imgH, Some(w), None);
      r.Some? && r.value.0 == Min(w, imgW) &&
      r.value.1 * imgW <= imgH * r.value.0 < (r.value.1 + 1) * imgW
  {
    ScaledSide(imgH, Min(w, imgW), imgW, imgH * Min(w, imgW) / imgW);
  }

  /** The symmetric rule for a height limit only. */
  lemma HeightLimitKeepsAspect(imgW: nat, imgH: nat, h: nat)
    requires imgH > 0
    ensures var r := DimensionsForImage(imgW, imgH, None, Some(h));
      r.Some? && r.value.1 == Min(h, imgH) &&
      r.value.0 * imgH <= imgW * r.value.1 < (r.value.0 + 1) * imgH
  {
    ScaledSide(imgW, Min(h, imgH), imgH, imgW * Min(h, imgH) / imgH);
  }

  /**
   * Without limits: an image under 800×600 pixels of area is kept as it is;
   * any other is divided on both sides by one factor of at least 2, and the
   * result is then under 800×600 pixels of area.
   */
  lemma AutoResizeCapsArea(imgW: nat, imgH: nat)
    ensures var r := DimensionsForImage(imgW, imgH, None, None);
      r.Some? &&
      (imgW * imgH < AutoArea ==> r.value == (imgW, imgH)) &&
      (imgW * imgH >= AutoArea ==>
        var f := AutoFactor(imgW, imgH);
        f >= 2 && r.value == (imgW / f, imgH / f) && r.value.0 * r.value.1 < AutoArea)
  {
    var f := AutoFactor(imgW, imgH);
    var area := imgW * imgH;
    FactorBounds(area, f);
    if area >= AutoArea {
      ShrunkArea(imgW, imgH, f);
    }
  }

  /** The factor is 1 below the cap, at least 2 from it on, and `area < f·AutoArea`. */
  lemma FactorBounds(area: nat, f: nat)
    requires f == (area + AutoArea) / AutoArea
    ensures area < f * AutoArea
    ensures area < AutoArea <==> f <= 1
  {
    DivBounds(area + AutoArea, AutoArea);
    if area < AutoArea {
      DivUnique(area + AutoArea, AutoArea, 1);
    } else {
      DivMonotone(2 * AutoArea, area + AutoArea, AutoArea);
      DivUnique(2 * AutoArea, AutoArea, 2);
    }
  }

  /** Dividing both sides by `f` brings an area below `f·AutoArea` under `AutoArea`. */
  lemma ShrunkArea(w: nat, h: nat, f: nat)
    requires f >= 1 && w * h < f * AutoArea
    ensures (w / f) * (h / f) < AutoArea
  {
    var a, b := w / f, h / f;
    DivBounds(w, f);
    DivBounds(h, f);
    MulBoth(a * f, w, b * f, h);
    Regroup(a, b, f);
    MulLtCancel(a * b * f, AutoArea, f);
    MulLe(1, f, a * b);
  }
}
