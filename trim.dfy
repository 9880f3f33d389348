/**
 * Trimming of a remapped frame: rows at the top and bottom that would look
 * exactly like what is already on screen are cut off, so the frame is
 * stored as a smaller rectangle.
 */
module Trim {
  import opened Wrappers
  import opened Colors

  /**
   * A palette-indexed pixel is invisible over the screen pixel `bg` when it
   * is the transparent index or its palette colour equals `bg`; an index
   * beyond the palette never matches.
   */
  predicate PixelMatches(px: Byte, bg: Rgba, pal: seq<Rgba>, ti: Option<Byte>)
  {
    ti == Some(px) || (px < |pal| && pal[px] == bg)
  }

  /** Every zipped pair of the row and the screen row matches (the longer row's excess is not compared). */
  predicate RowMatches(row: seq<Byte>, screenRow: seq<Rgba>, pal: seq<Rgba>, ti: Option<Byte>)
  {
    forall j :: 0 <= j < |row| && j < |screenRow| ==> PixelMatches(row[j], screenRow[j], pal, ti)
  }

  /** The number of matching rows at the end of `rows[..n]` (the reversed `take_while`). */
  function TrailingMatches(rows: seq<seq<Byte>>, screen: seq<seq<Rgba>>, pal: seq<Rgba>, ti: Option<Byte>, n: nat): (c: nat)
    requires n <= |rows| && n <= |screen|
    ensures c <= n
    ensures forall k :: n - c <= k < n ==> RowMatches(rows[k], screen[k], pal, ti)
    ensures c < n ==> !RowMatches(rows[n - c - 1], screen[n - c - 1], pal, ti)
  {
    if n == 0 then 0
    else if RowMatches(rows[n - 1], screen[n - 1], pal, ti) then 1 + TrailingMatches(rows, screen, pal, ti, n - 1)
    else 0
  }

  /** The number of matching rows from row `i` on, among rows before `n` (the forward `take_while`). */
  function LeadingMatches(rows: seq<seq<Byte>>, screen: seq<seq<Rgba>>, pal: seq<Rgba>, ti: Option<Byte>, i: nat, n: nat): (c: nat)
    requires i <= n <= |rows| && n <= |screen|
    ensures c <= n - i
    ensures forall k :: i <= k < i + c ==> RowMatches(rows[k], screen[k], pal, ti)
    ensures i + c < n ==> !RowMatches(rows[i + c], screen[i + c], pal, ti)
    decreases n - i
  {
    if i == n then 0
    else if RowMatches(rows[i], screen[i], pal, ti) then 1 + LeadingMatches(rows, screen, pal, ti, i + 1, n)
    else 0
  }

  /** A trimmed frame: its offset on screen and its remaining rows. */
  datatype Trimmed = Trimmed(left: nat, top: nat, rows: seq<seq<Byte>>)

  /**
   * Cuts the matching rows off the bottom, then off the top of what is left;
   * `None` when every row is invisible. The screen has the frame's height.
   */
  function TrimImage(rows: seq<seq<Byte>>, pal: seq<Rgba>, ti: Option<Byte>, screen: seq<seq<Rgba>>): Option<Trimmed>
    requires |rows| == |screen|
  {
    var bottom := TrailingMatches(rows, screen, pal, ti, |rows|);
    if bottom > 0 && bottom == |rows| then None
    else
      var kept := |rows| - bottom;
      var top := LeadingMatches(rows, screen, pal, ti, 0, kept);
      Some(Trimmed(0, top, rows[top..kept]))
  }

  /**
   * `t` keeps the left edge at 0 and a contiguous run of the original rows
   * starting at `top`, non-empty when the frame has rows; every dropped row
   * matches the screen, and the first and last kept rows do not. The offset
   * `top` fits the `u16` it is cast to whenever the frame has at most 65536
   * rows.
   */
  ghost predicate TightTrim(rows: seq<seq<Byte>>, pal: seq<Rgba>, ti: Option<Byte>, screen: seq<seq<Rgba>>, t: Trimmed)
    requires |rows| == |screen|
  {
    var end := t.top + |t.rows|;
    t.left == 0 && end <= |rows| && t.rows == rows[t.top..end] &&
    (|rows| > 0 ==> |t.rows| > 0 && t.top < |rows|) &&
    (|rows| <= 0x1_0000 ==> t.top < 0x1_0000) &&
    (forall k :: 0 <= k < t.top || end <= k < |rows| ==> RowMatches(rows[k], screen[k], pal, ti)) &&
    (|t.rows| > 0 ==>
      !RowMatches(rows[t.top], screen[t.top], pal, ti) && !RowMatches(rows[end - 1], screen[end - 1], pal, ti))
  }

  /** The rows left after cutting `bottom` matching rows and then the leading matching rows form a tight trim. */
  lemma KeptIsTight(rows: seq<seq<Byte>>, pal: seq<Rgba>, ti: Option<Byte>, screen: seq<seq<Rgba>>, bottom: nat)
    requires |rows| == |screen|
    requires bottom == TrailingMatches(rows, screen, pal, ti, |rows|) && !(bottom > 0 && bottom == |rows|)
    ensures TightTrim(rows, pal, ti, screen,
      Trimmed(0, LeadingMatches(rows, screen, pal, ti, 0, |rows| - bottom), rows[LeadingMatches(rows, screen, pal, ti, 0, |rows| - bottom)..|rows| - bottom]))
  {
    var kept := |rows| - bottom;
    var top := LeadingMatches(rows, screen, pal, ti, 0, kept);
    assert top + |rows[top..kept]| == kept <= |rows|;
    if |rows| > 0 {
      assert !RowMatches(rows[kept - 1], screen[kept - 1], pal, ti);
      assert top < kept;
    }
  }

  /** Trimming drops a frame exactly when it has rows and all of them match the screen. */
  lemma DroppedIffAllMatch(rows: seq<seq<Byte>>, pal: seq<Rgba>, ti: Option<Byte>, screen: seq<seq<Rgba>>)
    requires |rows| == |screen|
    ensures TrimImage(rows, pal, ti, screen).None? <==>
      |rows| > 0 && forall k :: 0 <= k < |rows| ==> RowMatches(rows[k], screen[k], pal, ti)
  {
    var bottom := TrailingMatches(rows, screen, pal, ti, |rows|);
    if bottom < |rows| {
      assert !RowMatches(rows[|rows| - bottom - 1], screen[|rows| - bottom - 1], pal, ti);
    }
  }

  /**
   * Trimming drops a frame exactly when it has rows and all of them match
   * the screen; otherwise what it keeps is a tight trim, so nothing visible
   * is lost and no matching edge row is kept.
   */
  lemma TrimImageContract(rows: seq<seq<Byte>>, pal: seq<Rgba>, ti: Option<Byte>, screen: seq<seq<Rgba>>)
    requires |rows| == |screen|
    ensures TrimImage(rows, pal, ti, screen).None? <==>
      |rows| > 0 && forall k :: 0 <= k < |rows| ==> RowMatches(rows[k], screen[k], pal, ti)
    ensures TrimImage(rows, pal, ti, screen).Some? ==> TightTrim(rows, pal, ti, screen, TrimImage(rows, pal, ti, screen).value)
  {
    DroppedIffAllMatch(rows, pal, ti, screen);
    var bottom := TrailingMatches(rows, screen, pal, ti, |rows|);
    if !(bottom > 0 && bottom == |rows|) {
      KeptIsTight(rows, pal, ti, screen, bottom);
    }
  }
}
