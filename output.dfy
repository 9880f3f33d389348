/**
 * The last stage of the writer: frames leave in order, each with a GIF delay
 * derived from its end time; progress is reported once per input frame and
 * the reporter can abort the encoding.
 */
module Output {
  import opened Wrappers
  import opened Colors
  import opened DiffStage

  /** A finished GIF frame: its position, indexed pixels, palette and transparency. */
  datatype GifFrame = GifFrame(
    left: nat, top: nat, screenWidth: nat, screenHeight: nat,
    image: seq<seq<Byte>>, pal: seq<Rgba>, dispose: Dispose, transparentIndex: Option<Byte>)

  /**
   * A frame on its way to the encoder. `endCs` is the time, in hundredths of
   * a second, at which the frame stops being shown (the presentation time of
   * the next frame, already rounded).
   */
  datatype FrameMessage = FrameMessage(ordinal: nat, endCs: nat, frame: GifFrame)

  /** The longest delay written for one frame: 300 seconds. */
  const MaxDelay: nat := 30000

  /** The encoder as the writer sees it: the frames written with their delays, and whether it was finished. */
  class Encoder {
    var writes: seq<(GifFrame, nat)>
    var finished: bool

    constructor ()
      ensures writes == [] && !finished
    {
      writes := [];
      finished := false;
    }

    method WriteFrame(frame: GifFrame, delay: nat)
      requires !finished
      modifies this
      ensures writes == old(writes) + [(frame, delay)] && !finished
    {
      writes := writes + [(frame, delay)];
    }

    method Finish()
      requires !finished
      modifies this
      ensures finished && writes == old(writes)
    {
      finished := true;
    }
  }

  datatype Status = Done | Aborted

  /**
   * The delay of a frame that ends at `endCs` when `elapsed` hundredths have
   * been written so far: the time still to cover, 0 if the frame ends in the
   * past, and never more than `MaxDelay`.
   */
  function Delay(endCs: nat, elapsed: nat): (d: nat)
    ensures d <= MaxDelay
    ensures d == 0 <==> endCs <= elapsed
    ensures elapsed + d <= Max(endCs, elapsed)
    ensures elapsed <= endCs <= elapsed + MaxDelay ==> elapsed + d == endCs
    ensures elapsed + MaxDelay <= endCs ==> d == MaxDelay
  {
    Min(if endCs >= elapsed then endCs - elapsed else 0, MaxDelay)
  }

  /** The answer of the reporter's `k`-th call (from 0); calls past the given answers continue. */
  function Reply(answers: seq<bool>, k: nat): bool
  {
    k >= |answers| || answers[k]
  }

  /** The first call among `lo..hi` (exclusive) that asks to stop, if any. */
  function FirstRefusal(answers: seq<bool>, lo: nat, hi: nat): (r: Option<nat>)
    ensures r.None? <==> forall k :: lo <= k < hi ==> Reply(answers, k)
    ensures r.Some? ==> lo <= r.value < hi && !Reply(answers, r.value)
    ensures r.Some? ==> forall k :: lo <= k < r.value ==> Reply(answers, k)
    decreases hi - lo
  {
    if lo >= hi then None
    else if !Reply(answers, lo) then Some(lo)
    else FirstRefusal(answers, lo + 1, hi)
  }

  /** What a run of the loop produces: the frames written, the number of reports made, and the outcome. */
  datatype Trace = Trace(writes: seq<(GifFrame, nat)>, reports: nat, status: Status)

  /**
   * The loop over `msgs` with `elapsed` hundredths already written and `done`
   * frames already reported: each frame's delay is computed and the time
   * advanced by it, the frame is written unless its delay is 0, then every
   * ordinal up to the frame's own is reported; a refusal ends the run.
   */
  function Run(msgs: seq<FrameMessage>, elapsed: nat, done: nat, answers: seq<bool>): Trace
    decreases |msgs|
  {
    if msgs == [] then Trace([], done, Done)
    else
      var m := msgs[0];
      var d := Delay(m.endCs, elapsed);
      var w := if d != 0 then [(m.frame, d)] else [];
      var refusal := FirstRefusal(answers, done, m.ordinal);
      if refusal.Some? then Trace(w, refusal.value + 1, Aborted)
      else
        var t := Run(msgs[1..], elapsed + d, Max(done, m.ordinal), answers);
        Trace(w + t.writes, t.reports, t.status)
  }

  /** One frame of the run, from message `i` to the next. */
  lemma RunStep(msgs: seq<FrameMessage>, i: nat, elapsed: nat, done: nat, answers: seq<bool>)
    requires i < |msgs|
    ensures var m := msgs[i];
      var d := Delay(m.endCs, elapsed);
      var w := if d != 0 then [(m.frame, d)] else [];
      var refusal := FirstRefusal(answers, done, m.ordinal);
      var rest := Run(msgs[i + 1..], elapsed + d, Max(done, m.ordinal), answers);
      Run(msgs[i..], elapsed, done, answers) ==
        if refusal.Some? then Trace(w, refusal.value + 1, Aborted) else Trace(w + rest.writes, rest.reports, rest.status)
  {
    assert msgs[i..][0] == msgs[i] && msgs[i..][1..] == msgs[i + 1..];
  }

  /**
   * Reports every ordinal from `done` up to `ordinal`, skipped frames
   * included, stopping at the first call the reporter refuses. Returns the
   * new count of reports and whether to go on.
   */
  method ReportProgress(done: nat, ordinal: nat, answers: seq<bool>) returns (nDone: nat, proceed: bool)
    ensures proceed <==> FirstRefusal(answers, done, ordinal).None?
    ensures proceed ==> nDone == Max(done, ordinal)
    ensures !proceed ==> nDone == FirstRefusal(answers, done, ordinal).value + 1
  {
    nDone := done;
    while nDone < ordinal
      invariant done <= nDone <= Max(done, ordinal)
      invariant forall k :: done <= k < nDone ==> Reply(answers, k)
    {
      nDone := nDone + 1;
      if !Reply(answers, nDone - 1) {
        return nDone, false;
      }
    }
    return nDone, true;
  }

  /**
   * The first half of one iteration: the frame's delay against the time
   * written so far, and the frame written unless that delay is 0.
   */
  method WriteTimed(enc: Encoder, m: FrameMessage, elapsed: nat) returns (delay: nat)
    requires !enc.finished
    modifies enc
    ensures delay == Delay(m.endCs, elapsed)
    ensures enc.writes == old(enc.writes) + (if delay != 0 then [(m.frame, delay)] else [])
    ensures !enc.finished
  {
    delay := Min(if m.endCs >= elapsed then m.endCs - elapsed else 0, MaxDelay);
    if delay != 0 {
      enc.WriteFrame(m.frame, delay);
    } else {
      assert enc.writes == old(enc.writes) + [];
    }
  }

  /**
   * Writes the frames to `enc`, asking the reporter (whose successive
   * answers are `answers`) once per ordinal frame number, skipped frames
   * included. Returns the outcome and the number of reporter calls; the
   * encoder is finished exactly when the run was not aborted.
   */
  method WriteFrames(msgs: seq<FrameMessage>, enc: Encoder, answers: seq<bool>) returns (status: Status, reports: nat)
    requires !enc.finished
    modifies enc
    ensures enc.writes == old(enc.writes) + Run(msgs, 0, 0, answers).writes
    ensures reports == Run(msgs, 0, 0, answers).reports
    ensures status == Run(msgs, 0, 0, answers).status
    ensures enc.finished <==> status == Done
  {
    ghost var full := Run(msgs, 0, 0, answers);
    ghost var w0 := enc.writes;
    var ptsInDelayUnits: nat := 0;
    var nDone: nat := 0;
    var i := 0;
    ghost var cur := full;
    assert msgs[0..] == msgs;
    while i < |msgs|
      invariant 0 <= i <= |msgs|
      invariant !enc.finished
      invariant cur == Run(msgs[i..], ptsInDelayUnits, nDone, answers)
      invariant enc.writes + cur.writes == w0 + full.writes
      invariant cur.reports == full.reports && cur.status == full.status
    {
      var m := msgs[i];
      ghost var before := enc.writes;
      ghost var next := Max(nDone, m.ordinal);
      RunStep(msgs, i, ptsInDelayUnits, nDone, answers);
      var delay := WriteTimed(enc, m, ptsInDelayUnits);
      ghost var w := if delay != 0 then [(m.frame, delay)] else [];
      ghost var rest := Run(msgs[i + 1..], ptsInDelayUnits + delay, next, answers);
      ptsInDelayUnits := ptsInDelayUnits + delay;
      var proceed;
      nDone, proceed := ReportProgress(nDone, m.ordinal, answers);
      if !proceed {
        return Aborted, nDone;
      }
      AppendAssoc(before, w, rest.writes);
      cur := rest;
      i := i + 1;
    }
    enc.Finish();
    return Done, nDone;
  }
}

module OutputFacts {
  import opened Wrappers
  import opened Output

  /** The largest ordinal among `msgs`, or `done` if larger: how many reports a complete run makes. */
  function MaxOrdinal(msgs: seq<FrameMessage>, done: nat): (r: nat)
    ensures done <= r
    ensures forall k :: 0 <= k < |msgs| ==> msgs[k].ordinal <= r
    ensures r == done || exists k :: 0 <= k < |msgs| && msgs[k].ordinal == r
    decreases |msgs|
  {
    if msgs == [] then done
    else
      var r := MaxOrdinal(msgs[1..], Max(done, msgs[0].ordinal));
      assert forall k :: 0 < k < |msgs| ==> msgs[k] == msgs[1..][k - 1];
      r
  }

  /** The time written after running over `msgs` from `elapsed`, whatever the reporter answers. */
  function Elapsed(msgs: seq<FrameMessage>, elapsed: nat): nat
    decreases |msgs|
  {
    if msgs == [] then elapsed
    else Elapsed(msgs[1..], elapsed + Delay(msgs[0].endCs, elapsed))
  }

  /** The total of the delays in a sequence of writes. */
  function TotalDelay(writes: seq<(GifFrame, nat)>): nat
  {
    if writes == [] then 0 else writes[0].1 + TotalDelay(writes[1..])
  }

  lemma {:induction false} TotalDelayAppend(a: seq<(GifFrame, nat)>, b: seq<(GifFrame, nat)>)
    ensures TotalDelay(a + b) == TotalDelay(a) + TotalDelay(b)
  {
    if a == [] {
      assert a + b == b;
    } else {
      assert (a + b)[1..] == a[1..] + b;
      TotalDelayAppend(a[1..], b);
    }
  }

  /** The reporter is called for ordinals `lo..hi` in order, so its first refusal there is found in `lo..mid` or, failing that, in `mid..hi`. */
  lemma FirstRefusalSplit(answers: seq<bool>, lo: nat, mid: nat, hi: nat)
    requires lo <= mid <= hi
    ensures FirstRefusal(answers, lo, hi) ==
      if FirstRefusal(answers, lo, mid).Some? then FirstRefusal(answers, lo, mid) else FirstRefusal(answers, mid, hi)
  {
    var left := FirstRefusal(answers, lo, mid);
    if left.None? {
      assert forall k :: lo <= k < hi && !Reply(answers, k) ==> mid <= k;
    }
  }

  /** Every frame written has a delay between 1 and 300 seconds: frames that end in the past are dropped, not written with delay 0. */
  lemma {:induction false} WrittenDelaysInRange(msgs: seq<FrameMessage>, elapsed: nat, done: nat, answers: seq<bool>)
    ensures forall j :: 0 <= j < |Run(msgs, elapsed, done, answers).writes| ==>
      0 < Run(msgs, elapsed, done, answers).writes[j].1 <= MaxDelay
    decreases |msgs|
  {
    if msgs != [] {
      var m := msgs[0];
      var d := Delay(m.endCs, elapsed);
      WrittenDelaysInRange(msgs[1..], elapsed + d, Max(done, m.ordinal), answers);
    }
  }

  /**
   * One frame of the run: a refusal while reporting its ordinals aborts
   * with that refusal; otherwise the run goes on with the rest, and the
   * first refusal over all remaining ordinals is the rest's.
   */
  lemma ReportsStep(msgs: seq<FrameMessage>, elapsed: nat, done: nat, answers: seq<bool>)
    requires msgs != []
    ensures var refusal := FirstRefusal(answers, done, msgs[0].ordinal);
      var r := Run(msgs, elapsed, done, answers);
      refusal.Some? ==> (r.status == Aborted && r.reports == refusal.value + 1 &&
        FirstRefusal(answers, done, MaxOrdinal(msgs, done)) == refusal)
    ensures var refusal := FirstRefusal(answers, done, msgs[0].ordinal);
      var r := Run(msgs, elapsed, done, answers);
      var next := Max(done, msgs[0].ordinal);
      var t := Run(msgs[1..], elapsed + Delay(msgs[0].endCs, elapsed), next, answers);
      refusal.None? ==> (r.status == t.status && r.reports == t.reports &&
        MaxOrdinal(msgs, done) == MaxOrdinal(msgs[1..], next) &&
        FirstRefusal(answers, done, MaxOrdinal(msgs, done)) == FirstRefusal(answers, next, MaxOrdinal(msgs[1..], next)))
  {
    var m := msgs[0];
    var next := Max(done, m.ordinal);
    var top := MaxOrdinal(msgs, done);
    assert top == MaxOrdinal(msgs[1..], next);
    FirstRefusalSplit(answers, done, next, top);
    if m.ordinal > done {
      FirstRefusalSplit(answers, done, m.ordinal, top);
    }
  }

  /**
   * The run is aborted exactly when the reporter refuses one of the calls
   * for ordinals `done..MaxOrdinal`; the number of reports is then the index
   * of that refusal plus one, and otherwise every ordinal was reported.
   */
  lemma {:induction false} ReportsUntilRefusal(msgs: seq<FrameMessage>, elapsed: nat, done: nat, answers: seq<bool>)
    ensures Run(msgs, elapsed, done, answers).status == Done <==>
      FirstRefusal(answers, done, MaxOrdinal(msgs, done)).None?
    ensures Run(msgs, elapsed, done, answers).status == Done ==>
      Run(msgs, elapsed, done, answers).reports == MaxOrdinal(msgs, done)
    ensures Run(msgs, elapsed, done, answers).status == Aborted ==>
      FirstRefusal(answers, done, MaxOrdinal(msgs, done)) == Some(Run(msgs, elapsed, done, answers).reports - 1)
    decreases |msgs|
  {
    if msgs != [] {
      ReportsStep(msgs, elapsed, done, answers);
      if FirstRefusal(answers, done, msgs[0].ordinal).None? {
        ReportsUntilRefusal(msgs[1..], elapsed + Delay(msgs[0].endCs, elapsed), Max(done, msgs[0].ordinal), answers);
      }
    }
  }

  /** When the run completes, the delays written add up to the time advanced. */
  lemma {:induction false} DelaysAddUp(msgs: seq<FrameMessage>, elapsed: nat, done: nat, answers: seq<bool>)
    requires Run(msgs, elapsed, done, answers).status == Done
    ensures elapsed + TotalDelay(Run(msgs, elapsed, done, answers).writes) == Elapsed(msgs, elapsed)
    decreases |msgs|
  {
    if msgs != [] {
      var m := msgs[0];
      var d := Delay(m.endCs, elapsed);
      var w := if d != 0 then [(m.frame, d)] else [];
      var t := Run(msgs[1..], elapsed + d, Max(done, m.ordinal), answers);
      DelaysAddUp(msgs[1..], elapsed + d, Max(done, m.ordinal), answers);
      TotalDelayAppend(w, t.writes);
    }
  }

  /** The time written never runs ahead of the latest end time. */
  lemma {:induction false} ElapsedNeverAhead(msgs: seq<FrameMessage>, elapsed: nat, bound: nat)
    requires elapsed <= bound
    requires forall k :: 0 <= k < |msgs| ==> msgs[k].endCs <= bound
    ensures elapsed <= Elapsed(msgs, elapsed) <= bound
    decreases |msgs|
  {
    if msgs != [] {
      var d := Delay(msgs[0].endCs, elapsed);
      assert forall k :: 0 <= k < |msgs[1..]| ==> msgs[1..][k] == msgs[k + 1];
      ElapsedNeverAhead(msgs[1..], elapsed + d, bound);
    }
  }

  /** The end time before the `k`-th message's: the previous message's, or `elapsed` for the first. */
  function PreviousEnd(msgs: seq<FrameMessage>, elapsed: nat, k: nat): nat
    requires k < |msgs|
  {
    if k == 0 then elapsed else msgs[k - 1].endCs
  }

  /** End times, starting from `elapsed`, that advance by at least `minGap` and at most `MaxDelay` each time. */
  predicate Steady(msgs: seq<FrameMessage>, elapsed: nat, minGap: nat)
  {
    forall k :: 0 <= k < |msgs| ==>
      PreviousEnd(msgs, elapsed, k) + minGap <= msgs[k].endCs <= PreviousEnd(msgs, elapsed, k) + MaxDelay
  }

  /** Steadiness after the first frame: the first delay is exactly its gap, and the rest is steady from its end. */
  lemma SteadyStep(msgs: seq<FrameMessage>, elapsed: nat, minGap: nat)
    requires msgs != [] && Steady(msgs, elapsed, minGap)
    ensures Delay(msgs[0].endCs, elapsed) == msgs[0].endCs - elapsed >= minGap
    ensures Steady(msgs[1..], msgs[0].endCs, minGap)
    ensures forall k :: 0 < k < |msgs| ==> PreviousEnd(msgs, elapsed, k) == PreviousEnd(msgs[1..], msgs[0].endCs, k - 1)
  {
    assert PreviousEnd(msgs, elapsed, 0) == elapsed;
    var rest := msgs[1..];
    forall k | 0 <= k < |rest|
      ensures PreviousEnd(rest, msgs[0].endCs, k) + minGap <= rest[k].endCs <= PreviousEnd(rest, msgs[0].endCs, k) + MaxDelay
    {
      assert PreviousEnd(rest, msgs[0].endCs, k) == PreviousEnd(msgs, elapsed, k + 1);
    }
  }

  /** With steady end times the written time lands exactly on the last frame's end: rounding never accumulates. */
  lemma {:induction false} SteadyEndsAreExact(msgs: seq<FrameMessage>, elapsed: nat)
    requires Steady(msgs, elapsed, 0)
    ensures Elapsed(msgs, elapsed) == if msgs == [] then elapsed else msgs[|msgs| - 1].endCs
    decreases |msgs|
  {
    if msgs != [] {
      SteadyStep(msgs, elapsed, 0);
      SteadyEndsAreExact(msgs[1..], msgs[0].endCs);
    }
  }

  /**
   * With end times that strictly advance by at most `MaxDelay`, a complete
   * run writes every frame, in order, each with the gap to the previous end
   * time as its delay.
   */
  lemma {:induction false} SteadyWritesEveryFrame(msgs: seq<FrameMessage>, elapsed: nat, done: nat, answers: seq<bool>)
    requires Steady(msgs, elapsed, 1)
    requires Run(msgs, elapsed, done, answers).status == Done
    ensures |Run(msgs, elapsed, done, answers).writes| == |msgs|
    ensures forall k :: 0 <= k < |msgs| ==>
      Run(msgs, elapsed, done, answers).writes[k] == (msgs[k].frame, msgs[k].endCs - PreviousEnd(msgs, elapsed, k))
    decreases |msgs|
  {
    if msgs != [] {
      var m := msgs[0];
      SteadyStep(msgs, elapsed, 1);
      var t := Run(msgs[1..], m.endCs, Max(done, m.ordinal), answers);
      var w := Run(msgs, elapsed, done, answers).writes;
      assert w == [(m.frame, m.endCs - elapsed)] + t.writes;
      SteadyWritesEveryFrame(msgs[1..], m.endCs, Max(done, m.ordinal), answers);
      GapsShift(msgs, elapsed, t.writes);
    }
  }

  /** A frame written with its gap, followed by the rest written with theirs, is every frame written with its gap. */
  lemma GapsShift(msgs: seq<FrameMessage>, elapsed: nat, rest: seq<(GifFrame, nat)>)
    requires msgs != [] && |rest| == |msgs| - 1
    requires forall k :: 0 <= k < |rest| ==>
      rest[k] == (msgs[1..][k].frame, msgs[1..][k].endCs - PreviousEnd(msgs[1..], msgs[0].endCs, k))
    ensures var w := [(msgs[0].frame, msgs[0].endCs - elapsed)] + rest;
      forall k :: 0 <= k < |msgs| ==> w[k] == (msgs[k].frame, msgs[k].endCs - PreviousEnd(msgs, elapsed, k))
  {
    var w := [(msgs[0].frame, msgs[0].endCs - elapsed)] + rest;
    forall k | 0 <= k < |msgs|
      ensures w[k] == (msgs[k].frame, msgs[k].endCs - PreviousEnd(msgs, elapsed, k))
    {
      if k > 0 {
        assert w[k] == rest[k - 1];
        assert msgs[k] == msgs[1..][k - 1];
        assert PreviousEnd(msgs[1..], msgs[0].endCs, k - 1) == msgs[k - 1].endCs;
      }
    }
  }
}
