/**
 * The third stage of the writer, after remapping: a quantized palette may
 * hold several nearly transparent colours, but a GIF frame has a single
 * transparent index. All of them are made fully transparent and the
 * pixels that use them are redirected to the first one.
 */
module Palette {
  import opened Wrappers
  import opened Colors

  /** A palette entry the writer treats as transparent. */
  predicate Translucent(p: Rgba)
  {
    p.a <= 128
  }

  /** The first translucent entry of `pal`, found by extending a prefix one entry at a time. */
  function FirstTranslucent(pal: seq<Rgba>): (r: Option<nat>)
    ensures r.Some? ==> r.value < |pal| && Translucent(pal[r.value])
  {
    if |pal| == 0 then None
    else
      var earlier := FirstTranslucent(pal[..|pal| - 1]);
      if earlier.Some? then earlier
      else if Translucent(pal[|pal| - 1]) then Some(|pal| - 1)
      else None
  }

  /** `FirstTranslucent` is the lowest translucent index, or None when there is none. */
  lemma {:induction false} FirstTranslucentIsLowest(pal: seq<Rgba>)
    ensures FirstTranslucent(pal).None? <==> forall j :: 0 <= j < |pal| ==> !Translucent(pal[j])
    ensures FirstTranslucent(pal).Some? ==>
      var t := FirstTranslucent(pal).value;
      t < |pal| && Translucent(pal[t]) && forall j :: 0 <= j < t ==> !Translucent(pal[j])
  {
    if |pal| > 0 {
      var init := pal[..|pal| - 1];
      FirstTranslucentIsLowest(init);
      assert forall j :: 0 <= j < |init| ==> init[j] == pal[j];
    }
  }

  /** The transparent index the frame ends up with: the first translucent entry, as a byte. */
  function TransparentIndex(pal: seq<Rgba>): (ti: Option<Byte>)
    requires |pal| <= 256
  {
    var t := FirstTranslucent(pal);
    if t.Some? then Some(t.value as Byte) else None
  }

  /** The palette after the loop: translucent entries get alpha 0, the others are untouched. */
  function Cleared(pal: seq<Rgba>): (r: seq<Rgba>)
    ensures |r| == |pal|
  {
    seq(|pal|, i requires 0 <= i < |pal| => if Translucent(pal[i]) then pal[i].(a := 0) else pal[i])
  }

  /**
   * The pixels after the loop: a pixel whose index is a translucent entry of
   * `pal` now uses the transparent index `ti`; all others are unchanged.
   */
  function Redirected(pixels: seq<Byte>, pal: seq<Rgba>, ti: Option<Byte>): (r: seq<Byte>)
    ensures |r| == |pixels|
  {
    seq(|pixels|, i requires 0 <= i < |pixels| =>
      if ti.Some? && pixels[i] < |pal| && Translucent(pal[pixels[i]]) then ti.value else pixels[i])
  }

  /** The inner loop: every pixel using index `from` is switched to index `to`. */
  method Replace(image8: array<Byte>, from: Byte, to: Byte)
    modifies image8
    ensures forall k :: 0 <= k < image8.Length ==> image8[k] == if old(image8[k]) == from then to else old(image8[k])
  {
    var j := 0;
    while j < image8.Length
      invariant 0 <= j <= image8.Length
      invariant forall k :: 0 <= k < j ==> image8[k] == if old(image8[k]) == from then to else old(image8[k])
      invariant forall k :: j <= k < image8.Length ==> image8[k] == old(image8[k])
    {
      if image8[j] == from {
        image8[j] := to;
      }
      j := j + 1;
    }
  }

  /**
   * Merges the transparent colours of a remapped frame: walks the palette,
   * zeroes the alpha of every translucent entry, keeps the first one as the
   * transparent index and redirects the pixels of every later one to it.
   * Palettes from the quantizer have at most 256 entries, so every index
   * fits a byte.
   */
  method MergeTransparent(pal: array<Rgba>, image8: array<Byte>) returns (ti: Option<Byte>)
    requires pal.Length <= 256
    modifies pal, image8
    ensures pal[..] == Cleared(old(pal[..]))
    ensures ti == TransparentIndex(old(pal[..]))
    ensures image8[..] == Redirected(old(image8[..]), old(pal[..]), ti)
  {
    ghost var pal0 := pal[..];
    ghost var img0 := image8[..];
    ti := None;
    var i := 0;
    while i < pal.Length
      invariant 0 <= i <= pal.Length
      invariant forall k :: 0 <= k < i ==> pal[k] == Cleared(pal0)[k]
      invariant forall k :: i <= k < pal.Length ==> pal[k] == pal0[k]
      invariant ti == TransparentIndex(pal0[..i])
      invariant image8[..] == Redirected(img0, pal0[..i], ti)
    {
      assert pal0[..i + 1][..i] == pal0[..i];
      FirstTranslucentIsLowest(pal0[..i]);
      if pal[i].a <= 128 {
        pal[i] := pal[i].(a := 0);
        var newIndex := i as Byte;
        if ti.Some? {
          var oldIndex := ti.value;
          Replace(image8, newIndex, oldIndex);
          assert forall k :: 0 <= k < image8.Length ==> image8[k] == Redirected(img0, pal0[..i + 1], ti)[k];
          assert image8[..] == Redirected(img0, pal0[..i + 1], ti);
        } else {
          ti := Some(newIndex);
          assert image8[..] == Redirected(img0, pal0[..i + 1], ti);
        }
      } else {
        assert image8[..] == Redirected(img0, pal0[..i + 1], ti);
      }
      i := i + 1;
    }
    assert pal0[..i] == pal0;
  }

  /**
   * What the merge guarantees for the rest of the writer: no pixel uses a
   * translucent colour except through the transparent index. Every palette
   * index is the transparent index, or a colour more than half opaque, or
   * unused; and a translucent entry exists exactly when there is a
   * transparent index, which is then the lowest translucent entry.
   */
  lemma MergeLeavesOneTransparentIndex(pal: seq<Rgba>, pixels: seq<Byte>)
    requires |pal| <= 256
    ensures forall idx :: 0 <= idx < |pal| ==>
      (TransparentIndex(pal).Some? && TransparentIndex(pal).value == idx) ||
      Cleared(pal)[idx].a > 128 ||
      idx !in Redirected(pixels, pal, TransparentIndex(pal))
    ensures TransparentIndex(pal).None? <==> forall j :: 0 <= j < |pal| ==> !Translucent(pal[j])
    ensures TransparentIndex(pal).Some? ==>
      var t := TransparentIndex(pal).value;
      t < |pal| && Translucent(pal[t]) && Cleared(pal)[t].a == 0 && forall j :: 0 <= j < t ==> !Translucent(pal[j])
  {
    var ti := TransparentIndex(pal);
    var out := Redirected(pixels, pal, ti);
    FirstTranslucentIsLowest(pal);
    forall idx | 0 <= idx < |pal| && !(ti.Some? && ti.value == idx) && Cleared(pal)[idx].a <= 128
      ensures idx !in out
    {
      assert Translucent(pal[idx]);
    }
  }
}
