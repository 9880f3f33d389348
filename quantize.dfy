/**
 * The second stage of the writer: before a frame is quantized, its
 * importance map is weakened where the frame barely differs from the
 * previous one that stays on screen, so the palette is not wasted on pixels
 * the viewer already sees.
 */
module Quantize {
  import opened Wrappers
  import opened Colors
  import opened Arith
  import opened Config
  import opened DiffStage

  /**
   * The colour distance under which a pixel counts as unchanged:
   * `80 + q²` with `q = 100 - color_quality`, so 80 at quality 75 and above.
   */
  function MinDiff(s: Settings): (m: nat)
    ensures 80 <= m <= 80 + 100 * 100
    ensures s.quality >= 75 ==> m == 80
  {
    var q := 100 - ColorQuality(s);
    MulLe(q, 100, q);
    MulLe(q, 100, 100);
    80 + q * q
  }

  /** A lower quality never makes the unchanged-pixel threshold smaller. */
  lemma MinDiffAntitone(s: Settings, t: Settings)
    requires s.quality <= t.quality
    ensures MinDiff(t) <= MinDiff(s)
  {
    ColorQualityMonotone(s, t);
    var p, q := 100 - ColorQuality(t), 100 - ColorQuality(s);
    MulLe(p, q, p);
    MulLe(p, q, q);
  }

  /** The scale applied to a changed pixel's importance, in 256ths: `min((diff/32)², 256)`. */
  function Weight(diff: nat): (w: nat)
    ensures w <= 256
  {
    var t := diff / 32;
    Min(t * t, 256)
  }

  /** A larger colour difference never gives a smaller weight. */
  lemma WeightMonotone(d1: nat, d2: nat)
    requires d1 <= d2
    ensures Weight(d1) <= Weight(d2)
  {
    var t1, t2 := d1 / 32, d2 / 32;
    DivMonotone(d1, d2, 32);
    MulBoth(t1, t2, t1, t2);
  }

  /**
   * The new importance of a pixel whose colour distance from the previous
   * frame is `diff`: 0 below the threshold, otherwise the old importance
   * scaled by `min((diff/32)², 256)/256`.
   */
  function AttenuateDiff(imp: Byte, diff: nat, minDiff: nat): (v: Byte)
    requires diff <= MaxDiff
    ensures v <= imp
    ensures diff < minDiff ==> v == 0
    ensures diff >= 512 && diff >= minDiff ==> v == imp
  {
    if diff < minDiff then 0
    else
      var w := Weight(diff);
      MulLe(w, 256, imp);
      DivMonotone(w * imp, 256 * imp, 256);
      DivUnique(256 * imp, 256, imp);
      LargeDiffSaturates(diff);
      w * imp / 256
  }

  /** From a difference of 512 on, `(diff/32)²` reaches the cap of 256. */
  lemma LargeDiffSaturates(diff: nat)
    ensures diff >= 512 ==> Weight(diff) == 256
  {
    if diff >= 512 {
      WeightMonotone(512, diff);
      assert Weight(512) == 256;
    }
  }

  /**
   * Every intermediate value of the Rust computation fits its type: `diff/32`
   * squared fits `u32`, the product with the old importance fits `u16`.
   */
  lemma AttenuateFitsRustTypes(imp: Byte, diff: nat)
    requires diff <= MaxDiff
    ensures (diff / 32) * (diff / 32) < 0x1_0000_0000
    ensures Weight(diff) * imp < 0x1_0000
  {
    var t := diff / 32;
    DivMonotone(diff, MaxDiff, 32);
    MulBoth(t, 12192, t, 12192);
    MulBoth(Weight(diff), 256, imp, 255);
  }

  /** Among changed pixels, a larger colour difference never gives less importance. */
  lemma AttenuateMonotoneInDiff(imp: Byte, d1: nat, d2: nat, minDiff: nat)
    requires d1 <= d2 <= MaxDiff
    ensures AttenuateDiff(imp, d1, minDiff) <= AttenuateDiff(imp, d2, minDiff)
  {
    if d1 >= minDiff {
      WeightMonotone(d1, d2);
      MulLe(Weight(d1), Weight(d2), imp);
      DivMonotone(Weight(d1) * imp, Weight(d2) * imp, 256);
    }
  }

  /** One pixel of the update: the distance between the previous frame's pixel and this one. */
  function Attenuate(imp: Byte, bg: Rgba, px: Rgba, minDiff: nat): (r: Byte)
    ensures r <= imp
    ensures ColorDiff(bg, px) < minDiff ==> r == 0
  {
    AttenuateDiff(imp, ColorDiff(bg, px), minDiff)
  }

  /** The whole importance map after the update against the previous frame. */
  function Attenuated(imp: seq<Byte>, prev: seq<Rgba>, cur: seq<Rgba>, minDiff: nat): (r: seq<Byte>)
    requires |imp| == |prev| == |cur|
    ensures |r| == |imp|
  {
    seq(|imp|, i requires 0 <= i < |imp| => Attenuate(imp[i], prev[i], cur[i], minDiff))
  }

  /**
   * Pixel by pixel, the update never raises importance, clears it for pixels
   * closer than the threshold to the previous frame, and keeps it for pixels
   * that differ by 512 or more and by at least the threshold.
   */
  lemma AttenuatedEffect(imp: seq<Byte>, prev: seq<Rgba>, cur: seq<Rgba>, minDiff: nat, i: nat)
    requires |imp| == |prev| == |cur| && i < |imp|
    ensures Attenuated(imp, prev, cur, minDiff)[i] <= imp[i]
    ensures ColorDiff(prev[i], cur[i]) < minDiff ==> Attenuated(imp, prev, cur, minDiff)[i] == 0
    ensures ColorDiff(prev[i], cur[i]) >= 512 && ColorDiff(prev[i], cur[i]) >= minDiff ==>
      Attenuated(imp, prev, cur, minDiff)[i] == imp[i]
  {
  }

  /** The `for_each` over the zipped map and pixels, rewriting the map in place. */
  method AttenuateInPlace(imp: array<Byte>, prev: seq<Rgba>, cur: seq<Rgba>, minDiff: nat)
    requires imp.Length == |prev| == |cur|
    modifies imp
    ensures imp[..] == Attenuated(old(imp[..]), prev, cur, minDiff)
  {
    var i := 0;
    while i < imp.Length
      invariant 0 <= i <= imp.Length
      invariant forall k :: 0 <= k < i ==> imp[k] == Attenuate(old(imp[k]), prev[k], cur[k], minDiff)
      invariant forall k :: i <= k < imp.Length ==> imp[k] == old(imp[k])
    {
      imp[i] := Attenuate(imp[i], prev[i], cur[i], minDiff);
      i := i + 1;
    }
  }

  /**
   * The quality the quantizer is given: the colour quality when the frame has
   * an earlier frame (ordinal above 1), 100 for the first frame.
   */
  function QuantizeQuality(ordinal: nat, s: Settings): (q: Byte)
    ensures q <= 100
    ensures ordinal <= 1 ==> q == 100
    ensures ordinal > 1 ==> q == ColorQuality(s)
    ensures q >= ColorQuality(s)
  {
    if ordinal > 1 then ColorQuality(s) else 100
  }

  /** What the quantizer is handed for one frame. */
  datatype QuantInput = QuantInput(ordinal: nat, dispose: Dispose, image: Image, importanceMap: seq<Byte>, quality: Byte)

  /** All messages, and the remembered previous frame, have `n` pixels and `n` importance values. */
  predicate Uniform(msgs: seq<DiffMessage>, prev: Option<Image>, n: nat)
  {
    (prev.Some? ==> |prev.value.pixels| == n) &&
    forall k :: 0 <= k < |msgs| ==> |msgs[k].image.pixels| == n && |msgs[k].importanceMap| == n
  }

  /** Every message's image, and the frame on screen, have as many pixels as the message has importance values. */
  predicate Fits(m: DiffMessage, prev: Option<Image>)
  {
    |m.image.pixels| == |m.importanceMap| && (prev.Some? ==> |prev.value.pixels| == |m.importanceMap|)
  }

  /**
   * What the quantizer is handed for message `m` while `prev` stays on
   * screen: the importance map attenuated against `prev`, if any, and the
   * quality for the frame's ordinal.
   */
  function Prepared(m: DiffMessage, prev: Option<Image>, s: Settings): QuantInput
    requires Fits(m, prev)
  {
    var weights := if prev.Some? then Attenuated(m.importanceMap, prev.value.pixels, m.image.pixels, MinDiff(s)) else m.importanceMap;
    QuantInput(m.ordinal, m.dispose, m.image, weights, QuantizeQuality(m.ordinal, s))
  }

  /**
   * A prepared frame keeps the message's ordinal, disposal and image; its
   * map has one value per pixel, never above the diff stage's, and is that
   * map itself when nothing stays on screen; its quality is at most 100, and
   * 100 for the first frame.
   */
  lemma PreparedFacts(m: DiffMessage, prev: Option<Image>, s: Settings)
    requires Fits(m, prev)
    ensures var r := Prepared(m, prev, s);
      r.ordinal == m.ordinal && r.dispose == m.dispose && r.image == m.image &&
      |r.importanceMap| == |m.importanceMap| &&
      (forall p :: 0 <= p < |m.importanceMap| ==> r.importanceMap[p] <= m.importanceMap[p]) &&
      (prev.None? ==> r.importanceMap == m.importanceMap) &&
      r.quality <= 100 && (m.ordinal <= 1 ==> r.quality == 100)
  {
    if prev.Some? {
      forall p | 0 <= p < |m.importanceMap|
        ensures Prepared(m, prev, s).importanceMap[p] <= m.importanceMap[p]
      {
        AttenuatedEffect(m.importanceMap, prev.value.pixels, m.image.pixels, MinDiff(s), p);
      }
    }
  }

  /**
   * The inputs handed to the quantizer for `msgs`, `prev` being the frame
   * that stays on screen: a frame disposed with Keep is remembered for the
   * next one, a frame disposed to background leaves nothing behind.
   */
  function Quantized(msgs: seq<DiffMessage>, prev: Option<Image>, s: Settings, n: nat): (r: seq<QuantInput>)
    requires Uniform(msgs, prev, n)
    ensures |r| == |msgs|
  {
    if msgs == [] then []
    else
      var m := msgs[0];
      [Prepared(m, prev, s)] + Quantized(msgs[1..], Remembered(m), s, n)
  }

  /** The frame left on screen after `m`: its image if it is disposed with Keep, nothing if disposed to background. */
  function Remembered(m: DiffMessage): Option<Image>
  {
    if m.dispose == Keep then Some(m.image) else None
  }

  /** One step of the stage's loop, from message `i` to the next. */
  lemma QuantizedStep(msgs: seq<DiffMessage>, i: nat, prev: Option<Image>, s: Settings, n: nat)
    requires i < |msgs| && Uniform(msgs[i..], prev, n)
    ensures Fits(msgs[i], prev) && Uniform(msgs[i + 1..], Remembered(msgs[i]), n)
    ensures Quantized(msgs[i..], prev, s, n) == [Prepared(msgs[i], prev, s)] + Quantized(msgs[i + 1..], Remembered(msgs[i]), s, n)
  {
    assert msgs[i..][0] == msgs[i] && msgs[i..][1..] == msgs[i + 1..];
  }

  /** The body of the stage's loop for one message: the map is copied into a buffer and attenuated there in place. */
  method PrepareFrame(m: DiffMessage, prev: Option<Image>, s: Settings) returns (item: QuantInput)
    requires Fits(m, prev)
    ensures item == Prepared(m, prev, s)
  {
    var imp := new Byte[|m.importanceMap|](k requires 0 <= k < |m.importanceMap| => m.importanceMap[k]);
    assert imp[..] == m.importanceMap;
    if prev.Some? {
      AttenuateInPlace(imp, prev.value.pixels, m.image.pixels, MinDiff(s));
    }
    item := QuantInput(m.ordinal, m.dispose, m.image, imp[..], QuantizeQuality(m.ordinal, s));
  }

  /**
   * The quantize stage: receives the diff messages in order and rewrites
   * each importance map against the previous kept frame. No message at all
   * is an error.
   */
  method QuantizeFrames(msgs: seq<DiffMessage>, s: Settings, ghost n: nat) returns (out: seq<QuantInput>, err: Option<DiffError>)
    requires Uniform(msgs, None, n)
    ensures err.Some? <==> msgs == []
    ensures err.Some? ==> err.value == NoFrames
    ensures out == Quantized(msgs, None, s, n)
  {
    if msgs == [] {
      return [], Some(NoFrames);
    }
    var prev: Option<Image> := None;
    out := [];
    var i := 0;
    while i < |msgs|
      invariant 0 <= i <= |msgs|
      invariant Uniform(msgs[i..], prev, n)
      invariant out + Quantized(msgs[i..], prev, s, n) == Quantized(msgs, None, s, n)
    {
      QuantizedStep(msgs, i, prev, s, n);
      var next := Remembered(msgs[i]);
      ghost var rest := Quantized(msgs[i + 1..], next, s, n);
      var item := PrepareFrame(msgs[i], prev, s);
      AppendAssoc(out, [item], rest);
      out := out + [item];
      prev := next;
      i := i + 1;
    }
    assert msgs[i..] == [];
    assert out + [] == out;
    err := None;
  }

  /**
   * Frame `k` is prepared from its own message and from the frame the
   * message before it left on screen (or `prev` for the first), and from
   * nothing else.
   */
  lemma {:induction false} QuantizedFacts(msgs: seq<DiffMessage>, prev: Option<Image>, s: Settings, n: nat, k: nat)
    requires Uniform(msgs, prev, n) && k < |msgs|
    ensures Fits(msgs[k], KeptBefore(msgs, prev, k))
    ensures Quantized(msgs, prev, s, n)[k] == Prepared(msgs[k], KeptBefore(msgs, prev, k), s)
    decreases k
  {
    var m := msgs[0];
    if k > 0 {
      QuantizedFacts(msgs[1..], Remembered(m), s, n, k - 1);
      assert msgs[1..][k - 1] == msgs[k];
      assert KeptBefore(msgs[1..], Remembered(m), k - 1) == KeptBefore(msgs, prev, k);
    }
  }

  /** The frame on screen when message `k` is quantized: the previous message's image if it was kept. */
  function KeptBefore(msgs: seq<DiffMessage>, prev: Option<Image>, k: nat): Option<Image>
    requires k < |msgs|
  {
    if k == 0 then prev else Remembered(msgs[k - 1])
  }

  /** All frames have the size of the first when consecutive ones agree. */
  lemma {:induction false} SameSizeThroughout(frames: seq<Image>, j: nat)
    requires forall i :: 0 <= i && i + 1 < |frames| ==> SameSize(frames[i], frames[i + 1])
    requires j < |frames|
    ensures SameSize(frames[0], frames[j])
  {
    if j > 0 {
      SameSizeThroughout(frames, j - 1);
    }
  }

  /**
   * The diff stage's output, when it succeeds, meets what the quantize stage
   * needs: every message has the first frame's pixel count, in the image and
   * in the importance map.
   */
  lemma DiffsAreUniform(frames: seq<Image>)
    requires AllValid(frames) && Diffs(frames).1.None?
    ensures |frames| > 0 && Uniform(Diffs(frames).0, None, |frames[0].pixels|)
  {
    DiffsContract(frames);
    var ms := Diffs(frames).0;
    forall k | 0 <= k < |ms|
      ensures |ms[k].image.pixels| == |frames[0].pixels| && |ms[k].importanceMap| == |frames[0].pixels|
    {
      assert Describes(frames, ms[k], HasTransparency(frames[0]));
      SameSizeThroughout(frames, ms[k].ordinal - 1);
      assert frames[0].Valid() && frames[ms[k].ordinal - 1].Valid();
    }
  }
}
