/**
 * The first stage of the writer: each frame is compared with the one that
 * follows it, which decides how important each of its pixels is for the
 * quantizer and how the frame must be disposed of.
 */
module DiffStage {
  import opened Wrappers
  import opened Colors
  import opened Arith

  /** The two GIF disposal methods the writer uses. */
  datatype Dispose = Keep | Background

  /** A frame ready for quantization; `ordinal` counts input frames from 1, skipped ones included. */
  datatype DiffMessage = DiffMessage(ordinal: nat, dispose: Dispose, image: Image, importanceMap: seq<Byte>)

  datatype DiffError = NoFrames | WrongSize(ordinal: nat)

  /** `255·255·6/170`: each 2295 units of colour distance cost one step of importance. */
  const DiffUnit: nat := MaxDiff / 170

  /**
   * Importance of a pixel given the pixel that replaces it in the next frame:
   * 255 when they look alike, down to 85 for the largest change, so that a
   * pixel overwritten at once is still worth something.
   */
  function Importance(next: Rgba, curr: Rgba): (v: Byte)
    ensures 85 <= v <= 255
    ensures v == 255 <==> ColorDiff(next, curr) < DiffUnit
  {
    var d := ColorDiff(next, curr);
    assert DiffUnit == 2295;
    DivMonotone(d, MaxDiff, DiffUnit);
    DivUnique(MaxDiff, DiffUnit, 170);
    DivBounds(d, DiffUnit);
    255 - d / DiffUnit
  }

  /**
   * The single pass over the zipped pixels of the next and current frame:
   * the importance of every pixel, and whether any pixel becomes more
   * transparent in the next frame (which forces disposal to background).
   */
  function DiffPixels(next: seq<Rgba>, curr: seq<Rgba>): (r: (seq<Byte>, bool))
    requires |next| == |curr|
    ensures |r.0| == |curr|
    ensures forall i :: 0 <= i < |curr| ==> r.0[i] == Importance(next[i], curr[i])
  {
    if |curr| == 0 then ([], false)
    else
      var rest := DiffPixels(next[1..], curr[1..]);
      ([Importance(next[0], curr[0])] + rest.0, next[0].a < curr[0].a || rest.1)
  }

  /** Some pixel of the next frame is more transparent than the same pixel now. */
  ghost predicate AlphaDrops(next: seq<Rgba>, curr: seq<Rgba>)
    requires |next| == |curr|
  {
    exists i :: 0 <= i < |curr| && next[i].a < curr[i].a
  }

  /** The pass asks for background disposal exactly when some alpha drops. */
  lemma {:induction false} DiffPixelsDispose(next: seq<Rgba>, curr: seq<Rgba>)
    requires |next| == |curr|
    ensures DiffPixels(next, curr).1 <==> AlphaDrops(next, curr)
  {
    if |curr| > 0 {
      DiffPixelsDispose(next[1..], curr[1..]);
      if AlphaDrops(next[1..], curr[1..]) {
        var i :| 0 <= i < |curr| - 1 && next[1..][i].a < curr[1..][i].a;
        assert next[i + 1].a < curr[i + 1].a;
      }
      if AlphaDrops(next, curr) && !(next[0].a < curr[0].a) {
        var i :| 0 <= i < |curr| && next[i].a < curr[i].a;
        assert next[1..][i - 1].a < curr[1..][i - 1].a;
      }
    }
  }

  /** `any(|px| px.a < 128)`: the first frame has pixels that will come out transparent. */
  predicate HasTransparency(img: Image)
  {
    exists i :: 0 <= i < |img.pixels| && img.pixels[i].a < 128
  }

  predicate SameSize(a: Image, b: Image)
  {
    a.width == b.width && a.height == b.height
  }

  predicate AllValid(frames: seq<Image>)
  {
    forall i :: 0 <= i < |frames| ==> frames[i].Valid()
  }

  datatype Step = Skip | Send(msg: DiffMessage) | Fail(err: DiffError)

  /**
   * What happens to frame `i`: compared with frame `i+1` it is rejected when
   * the sizes differ, skipped when identical, otherwise sent with its
   * importance map and disposal; the last frame is sent with full importance,
   * and disposed to background when the first frame had transparency.
   */
  function StepAt(frames: seq<Image>, i: nat, firstTransparent: bool): Step
    requires i < |frames| && AllValid(frames)
  {
    var image := frames[i];
    if i + 1 < |frames| then
      var next := frames[i + 1];
      if !SameSize(image, next) then Fail(WrongSize(i + 1))
      else if next == image then Skip
      else
        var d := DiffPixels(next.pixels, image.pixels);
        Send(DiffMessage(i + 1, if d.1 then Background else Keep, image, d.0))
    else
      Send(DiffMessage(i + 1, if firstTransparent then Background else Keep, image, seq(|image.pixels|, _ => 255)))
  }

  /** The messages sent for frames `i..`, and the error that stopped the stage, if any. */
  function DiffsFrom(frames: seq<Image>, i: nat, firstTransparent: bool): (seq<DiffMessage>, Option<DiffError>)
    requires AllValid(frames)
    decreases |frames| - i
  {
    if i >= |frames| then ([], None)
    else
      match StepAt(frames, i, firstTransparent)
      case Fail(e) => ([], Some(e))
      case Skip => DiffsFrom(frames, i + 1, firstTransparent)
      case Send(m) =>
        var rest := DiffsFrom(frames, i + 1, firstTransparent);
        ([m] + rest.0, rest.1)
  }

  /** The whole stage: no input frame at all is an error. */
  function Diffs(frames: seq<Image>): (seq<DiffMessage>, Option<DiffError>)
    requires AllValid(frames)
  {
    if |frames| == 0 then ([], Some(NoFrames))
    else DiffsFrom(frames, 0, HasTransparency(frames[0]))
  }

  /**
   * One iteration of the diff stage: compares frame `i` with the frame after
   * it (the look-ahead) and decides whether it fails, is skipped or is sent.
   */
  method DiffFrame(frames: seq<Image>, i: nat, firstTransparent: bool) returns (step: Step)
    requires i < |frames| && AllValid(frames)
    ensures step == StepAt(frames, i, firstTransparent)
  {
    var image := frames[i];
    var ordinal := i + 1;
    var dispose := Keep;
    var importanceMap;
    if i + 1 < |frames| {
      var next := frames[i + 1];
      if next.width != image.width || next.height != image.height {
        return Fail(WrongSize(ordinal));
      }
      if next == image {
        return Skip;
      }
      var d := DiffPixels(next.pixels, image.pixels);
      importanceMap := d.0;
      if d.1 {
        dispose := Background;
      }
    } else {
      if firstTransparent {
        dispose := Background;
      }
      importanceMap := seq(|image.pixels|, _ => 255);
    }
    return Send(DiffMessage(ordinal, dispose, image, importanceMap));
  }

  /**
   * The diff stage: walks the frames with one frame of look-ahead and
   * returns what it sent down the queue and the error it stopped with.
   */
  method MakeDiffs(frames: seq<Image>) returns (sent: seq<DiffMessage>, err: Option<DiffError>)
    requires AllValid(frames)
    ensures (sent, err) == Diffs(frames)
  {
    if |frames| == 0 {
      return [], Some(NoFrames);
    }
    var firstTransparent := HasTransparency(frames[0]);
    ghost var full := DiffsFrom(frames, 0, firstTransparent);
    sent := [];
    var i := 0;
    assert sent + full.0 == full.0;
    while i < |frames|
      invariant 0 <= i <= |frames|
      invariant sent + DiffsFrom(frames, i, firstTransparent).0 == full.0
      invariant DiffsFrom(frames, i, firstTransparent).1 == full.1
    {
      MessagesStep(frames, i, firstTransparent);
      ErrorStep(frames, i, firstTransparent);
      var step := DiffFrame(frames, i, firstTransparent);
      match step {
        case Fail(e) =>
          assert sent + [] == sent;
          return sent, Some(e);
        case Skip =>
        case Send(msg) =>
          AppendAssoc(sent, [msg], DiffsFrom(frames, i + 1, firstTransparent).0);
          sent := sent + [msg];
      }
      i := i + 1;
    }
    assert DiffsFrom(frames, i, firstTransparent) == ([], None);
    assert sent + [] == sent;
    err := None;
  }

  /** Messages leave in strictly increasing ordinal order. */
  predicate Increasing(ms: seq<DiffMessage>)
  {
    forall k, l :: 0 <= k < l < |ms| ==> ms[k].ordinal < ms[l].ordinal
  }

  /** Frame `j` is the last of a run of identical frames: the last frame, or one its successor differs from. */
  predicate EndsRun(frames: seq<Image>, j: nat)
    requires j < |frames|
  {
    j + 1 == |frames| || frames[j] != frames[j + 1]
  }

  /** Some message carries the given ordinal. */
  predicate IsSent(ms: seq<DiffMessage>, ordinal: nat)
  {
    exists k :: 0 <= k < |ms| && ms[k].ordinal == ordinal
  }

  /** `err` names the first frame from `i` on whose successor has another size. */
  predicate FirstMismatch(frames: seq<Image>, i: nat, err: DiffError)
  {
    err.WrongSize? && i < err.ordinal < |frames| &&
    !SameSize(frames[err.ordinal - 1], frames[err.ordinal]) &&
    forall j :: i <= j < err.ordinal - 1 ==> SameSize(frames[j], frames[j + 1])
  }

  /**
   * What a message sent for frame `j = ordinal - 1` carries: that frame, one
   * importance value per pixel in 85..255, and for a frame with a successor
   * the importance of each pixel against the successor's pixel at the same
   * place and the disposal chosen from the successor's alpha; for the last
   * frame, full importance and background disposal exactly when the first
   * frame had transparency.
   */
  ghost predicate Describes(frames: seq<Image>, m: DiffMessage, firstTransparent: bool)
    requires AllValid(frames)
  {
    var j := m.ordinal - 1;
    0 <= j < |frames| && m.image == frames[j] &&
    |m.importanceMap| == |m.image.pixels| &&
    (forall p :: 0 <= p < |m.importanceMap| ==> 85 <= m.importanceMap[p] <= 255) &&
    if j + 1 < |frames| then
      SameSize(frames[j], frames[j + 1]) &&
      (forall p :: 0 <= p < |m.importanceMap| ==> m.importanceMap[p] == Importance(frames[j + 1].pixels[p], frames[j].pixels[p])) &&
      (m.dispose == Background <==> AlphaDrops(frames[j + 1].pixels, frames[j].pixels))
    else
      (m.dispose == Background <==> firstTransparent) &&
      (forall p :: 0 <= p < |m.importanceMap| ==> m.importanceMap[p] == 255)
  }

  /** The messages of frames `i..` leave in the order of the frames, each ordinal above `i`. */
  lemma {:induction false} DiffsFromOrdinals(frames: seq<Image>, i: nat, firstTransparent: bool)
    requires AllValid(frames)
    ensures forall k :: 0 <= k < |DiffsFrom(frames, i, firstTransparent).0| ==>
      i < DiffsFrom(frames, i, firstTransparent).0[k].ordinal
    ensures Increasing(DiffsFrom(frames, i, firstTransparent).0)
    decreases |frames| - i
  {
    if i < |frames| {
      match StepAt(frames, i, firstTransparent)
      case Send(m) =>
        DiffsFromOrdinals(frames, i + 1, firstTransparent);
        StepDescribes(frames, i, firstTransparent);
        IncreasingCons(m, DiffsFrom(frames, i + 1, firstTransparent).0);
      case Skip =>
        DiffsFromOrdinals(frames, i + 1, firstTransparent);
      case Fail(_) =>
    }
  }

  /** Putting a message before messages with higher ordinals keeps the order increasing. */
  lemma IncreasingCons(m: DiffMessage, rest: seq<DiffMessage>)
    requires Increasing(rest) && forall k :: 0 <= k < |rest| ==> m.ordinal < rest[k].ordinal
    ensures Increasing([m] + rest)
    ensures forall k :: 0 <= k < |[m] + rest| ==> m.ordinal <= ([m] + rest)[k].ordinal
  {
    var ms := [m] + rest;
    forall k, l | 0 <= k < l < |ms|
      ensures ms[k].ordinal < ms[l].ordinal
    {
      assert ms[l] == rest[l - 1];
      if k > 0 {
        assert ms[k] == rest[k - 1];
      }
    }
    forall k | 0 <= k < |ms|
      ensures m.ordinal <= ms[k].ordinal
    {
      if k > 0 {
        assert ms[k] == rest[k - 1];
      }
    }
  }

  /** Every message of frames `i..` describes the frame it was sent for. */
  lemma {:induction false} DiffsFromDescribe(frames: seq<Image>, i: nat, firstTransparent: bool)
    requires AllValid(frames)
    ensures forall k :: 0 <= k < |DiffsFrom(frames, i, firstTransparent).0| ==>
      Describes(frames, DiffsFrom(frames, i, firstTransparent).0[k], firstTransparent)
    decreases |frames| - i
  {
    if i < |frames| {
      DiffsFromDescribe(frames, i + 1, firstTransparent);
      MessagesStep(frames, i, firstTransparent);
      if StepAt(frames, i, firstTransparent).Send? {
        StepDescribes(frames, i, firstTransparent);
      }
    }
  }

  /** A message sent for frame `i` carries ordinal `i + 1` and describes that frame. */
  lemma StepDescribes(frames: seq<Image>, i: nat, firstTransparent: bool)
    requires AllValid(frames) && i < |frames| && StepAt(frames, i, firstTransparent).Send?
    ensures StepAt(frames, i, firstTransparent).msg.ordinal == i + 1
    ensures Describes(frames, StepAt(frames, i, firstTransparent).msg, firstTransparent)
  {
    if i + 1 < |frames| {
      DiffPixelsDispose(frames[i + 1].pixels, frames[i].pixels);
    }
  }

  /** Frame `i` stops the stage exactly when its successor has another size; otherwise the outcome is that of the rest. */
  lemma ErrorStep(frames: seq<Image>, i: nat, firstTransparent: bool)
    requires AllValid(frames) && i < |frames|
    ensures DiffsFrom(frames, i, firstTransparent).1 ==
      if i + 1 < |frames| && !SameSize(frames[i], frames[i + 1]) then Some(WrongSize(i + 1))
      else DiffsFrom(frames, i + 1, firstTransparent).1
  {
    match StepAt(frames, i, firstTransparent)
    case Fail(e) =>
    case Skip =>
    case Send(m) =>
  }

  /**
   * The stage fails only on a size mismatch between consecutive frames, and
   * then names the first frame (by ordinal) whose successor has another size.
   */
  lemma {:induction false} DiffsFromError(frames: seq<Image>, i: nat, firstTransparent: bool)
    requires AllValid(frames)
    ensures DiffsFrom(frames, i, firstTransparent).1.None? <==> SizesAgree(frames, i)
    ensures DiffsFrom(frames, i, firstTransparent).1.Some? ==>
      FirstMismatch(frames, i, DiffsFrom(frames, i, firstTransparent).1.value)
    decreases |frames| - i
  {
    if i < |frames| {
      ErrorStep(frames, i, firstTransparent);
      SizesAgreeStep(frames, i);
      if i + 1 < |frames| && !SameSize(frames[i], frames[i + 1]) {
        assert FirstMismatch(frames, i, WrongSize(i + 1));
      } else {
        DiffsFromError(frames, i + 1, firstTransparent);
        var e := DiffsFrom(frames, i + 1, firstTransparent).1;
        if e.Some? {
          assert FirstMismatch(frames, i + 1, e.value);
          assert FirstMismatch(frames, i, e.value);
        }
      }
    }
  }

  /** All consecutive frames from `i` on have the same size. */
  predicate SizesAgree(frames: seq<Image>, i: nat)
  {
    forall j :: i <= j && j + 1 < |frames| ==> SameSize(frames[j], frames[j + 1])
  }

  lemma SizesAgreeStep(frames: seq<Image>, i: nat)
    requires i < |frames|
    ensures SizesAgree(frames, i) <==> (i + 1 < |frames| ==> SameSize(frames[i], frames[i + 1]) && SizesAgree(frames, i + 1))
  {
  }

  /**
   * When the stage succeeds, frame `j` is sent exactly when it is the last
   * frame or differs from the frame after it.
   */
  lemma {:induction false} DiffsFromSent(frames: seq<Image>, i: nat, firstTransparent: bool, j: nat)
    requires AllValid(frames) && DiffsFrom(frames, i, firstTransparent).1.None? && i <= j < |frames|
    ensures IsSent(DiffsFrom(frames, i, firstTransparent).0, j + 1) <==> EndsRun(frames, j)
    decreases |frames| - i
  {
    if i == j {
      SentAtOwnStep(frames, i, firstTransparent);
    } else {
      SentPastStep(frames, i, firstTransparent, j + 1);
      DiffsFromSent(frames, i + 1, firstTransparent, j);
    }
  }

  /** Frame `i`'s own ordinal is sent exactly when the frame is the last or differs from its successor. */
  lemma SentAtOwnStep(frames: seq<Image>, i: nat, firstTransparent: bool)
    requires AllValid(frames) && DiffsFrom(frames, i, firstTransparent).1.None? && i < |frames|
    ensures IsSent(DiffsFrom(frames, i, firstTransparent).0, i + 1) <==> EndsRun(frames, i)
  {
    var ms := DiffsFrom(frames, i, firstTransparent).0;
    var rest := DiffsFrom(frames, i + 1, firstTransparent).0;
    MessagesStep(frames, i, firstTransparent);
    DiffsFromOrdinals(frames, i + 1, firstTransparent);
    assert !IsSent(rest, i + 1);
    match StepAt(frames, i, firstTransparent)
    case Send(m) =>
      StepDescribes(frames, i, firstTransparent);
      IsSentCons(m, rest, i + 1);
    case Skip =>
      assert ms == rest;
  }

  /** Any other ordinal is sent from frames `i..` exactly when it is sent from frames `i+1..`. */
  lemma SentPastStep(frames: seq<Image>, i: nat, firstTransparent: bool, ordinal: nat)
    requires AllValid(frames) && DiffsFrom(frames, i, firstTransparent).1.None? && i < |frames| && ordinal != i + 1
    ensures DiffsFrom(frames, i + 1, firstTransparent).1.None?
    ensures IsSent(DiffsFrom(frames, i, firstTransparent).0, ordinal) <==> IsSent(DiffsFrom(frames, i + 1, firstTransparent).0, ordinal)
  {
    var rest := DiffsFrom(frames, i + 1, firstTransparent).0;
    MessagesStep(frames, i, firstTransparent);
    ErrorStep(frames, i, firstTransparent);
    match StepAt(frames, i, firstTransparent)
    case Send(m) =>
      StepDescribes(frames, i, firstTransparent);
      IsSentCons(m, rest, ordinal);
    case Skip =>
  }

  /** The messages of frames `i..`: frame `i`'s own message, if sent, before those of the rest. */
  lemma MessagesStep(frames: seq<Image>, i: nat, firstTransparent: bool)
    requires AllValid(frames) && i < |frames|
    ensures DiffsFrom(frames, i, firstTransparent).0 ==
      match StepAt(frames, i, firstTransparent)
      case Send(m) => [m] + DiffsFrom(frames, i + 1, firstTransparent).0
      case Skip => DiffsFrom(frames, i + 1, firstTransparent).0
      case Fail(_) => []
    ensures StepAt(frames, i, firstTransparent).Fail? ==> DiffsFrom(frames, i, firstTransparent).1.Some?
    ensures StepAt(frames, i, firstTransparent).Skip? ==> i + 1 < |frames| && frames[i] == frames[i + 1]
    ensures StepAt(frames, i, firstTransparent).Send? ==> i + 1 == |frames| || frames[i] != frames[i + 1]
  {
  }

  /** A message is among `[m] + rest` exactly when it is `m`'s ordinal or among `rest`. */
  lemma IsSentCons(m: DiffMessage, rest: seq<DiffMessage>, ordinal: nat)
    ensures IsSent([m] + rest, ordinal) <==> m.ordinal == ordinal || IsSent(rest, ordinal)
  {
    var ms := [m] + rest;
    if IsSent(ms, ordinal) && m.ordinal != ordinal {
      var k :| 0 <= k < |ms| && ms[k].ordinal == ordinal;
      assert rest[k - 1].ordinal == ordinal;
    }
    if IsSent(rest, ordinal) {
      var k :| 0 <= k < |rest| && rest[k].ordinal == ordinal;
      assert ms[k + 1].ordinal == ordinal;
    }
    if m.ordinal == ordinal {
      assert ms[0].ordinal == ordinal;
    }
  }

  /** Every message is for a frame whose ordinal is below `bound`. */
  predicate OrdinalsBelow(ms: seq<DiffMessage>, bound: nat)
  {
    forall k :: 0 <= k < |ms| ==> ms[k].ordinal < bound
  }

  lemma OrdinalsBelowCons(m: DiffMessage, rest: seq<DiffMessage>, bound: nat)
    requires m.ordinal < bound && OrdinalsBelow(rest, bound)
    ensures OrdinalsBelow([m] + rest, bound)
  {
    var ms := [m] + rest;
    forall k | 0 < k < |ms|
      ensures ms[k].ordinal < bound
    {
      assert ms[k] == rest[k - 1];
    }
  }

  /** When the stage fails, every message it sent is for a frame before the mismatching pair. */
  lemma {:induction false} OrdinalsBeforeError(frames: seq<Image>, i: nat, firstTransparent: bool)
    requires AllValid(frames) && DiffsFrom(frames, i, firstTransparent).1.Some?
    ensures DiffsFrom(frames, i, firstTransparent).1.value.WrongSize?
    ensures OrdinalsBelow(DiffsFrom(frames, i, firstTransparent).0, DiffsFrom(frames, i, firstTransparent).1.value.ordinal)
    decreases |frames| - i
  {
    DiffsFromError(frames, i, firstTransparent);
    match StepAt(frames, i, firstTransparent) {
      case Fail(_) =>
      case Skip =>
        OrdinalsBeforeError(frames, i + 1, firstTransparent);
      case Send(m) =>
        OrdinalsBeforeError(frames, i + 1, firstTransparent);
        DiffsFromError(frames, i + 1, firstTransparent);
        StepDescribes(frames, i, firstTransparent);
        var rest := DiffsFrom(frames, i + 1, firstTransparent);
        OrdinalsBelowCons(m, rest.0, rest.1.value.ordinal);
    }
  }

  /**
   * When the stage fails, a frame before the mismatching pair was sent
   * exactly when it is the last of its run of identical frames.
   */
  lemma {:induction false} SentBeforeError(frames: seq<Image>, i: nat, firstTransparent: bool, j: nat)
    requires AllValid(frames) && DiffsFrom(frames, i, firstTransparent).1.Some?
    requires i <= j
    ensures DiffsFrom(frames, i, firstTransparent).1.value.WrongSize?
    ensures j + 1 < DiffsFrom(frames, i, firstTransparent).1.value.ordinal ==>
      j < |frames| && (IsSent(DiffsFrom(frames, i, firstTransparent).0, j + 1) <==> EndsRun(frames, j))
    decreases |frames| - i
  {
    DiffsFromError(frames, i, firstTransparent);
    if j + 1 < DiffsFrom(frames, i, firstTransparent).1.value.ordinal {
      ErrorStep(frames, i, firstTransparent);
      MessagesStep(frames, i, firstTransparent);
      var rest := DiffsFrom(frames, i + 1, firstTransparent).0;
      if i == j {
        DiffsFromOrdinals(frames, i + 1, firstTransparent);
        assert !IsSent(rest, i + 1);
        match StepAt(frames, i, firstTransparent) {
          case Send(m) =>
            StepDescribes(frames, i, firstTransparent);
            IsSentCons(m, rest, i + 1);
          case Skip =>
        }
      } else {
        SentBeforeError(frames, i + 1, firstTransparent, j);
        match StepAt(frames, i, firstTransparent) {
          case Send(m) =>
            StepDescribes(frames, i, firstTransparent);
            IsSentCons(m, rest, j + 1);
          case Skip =>
        }
      }
    }
  }


  /**
   * The whole stage: it fails exactly when there is no frame or two
   * consecutive frames differ in size; otherwise it sends, in order, the
   * frames that differ from their successor plus the last one, each
   * described by its message.
   */
  lemma DiffsContract(frames: seq<Image>)
    requires AllValid(frames)
    ensures Diffs(frames).1 == Some(NoFrames) <==> |frames| == 0
    ensures Diffs(frames).1.None? <==> |frames| > 0 && SizesAgree(frames, 0)
    ensures |frames| > 0 && Diffs(frames).1.Some? ==> FirstMismatch(frames, 0, Diffs(frames).1.value)
    ensures Increasing(Diffs(frames).0)
    ensures |frames| > 0 ==> forall k :: 0 <= k < |Diffs(frames).0| ==>
      Describes(frames, Diffs(frames).0[k], HasTransparency(frames[0]))
    ensures Diffs(frames).1.None? ==> forall j :: 0 <= j < |frames| ==>
      (IsSent(Diffs(frames).0, j + 1) <==> EndsRun(frames, j))
    ensures |frames| > 0 && Diffs(frames).1.Some? ==>
      forall k :: 0 <= k < |Diffs(frames).0| ==> Diffs(frames).0[k].ordinal < Diffs(frames).1.value.ordinal
    ensures |frames| > 0 && Diffs(frames).1.Some? ==> forall j :: 0 <= j < |frames| && j + 1 < Diffs(frames).1.value.ordinal ==>
      (IsSent(Diffs(frames).0, j + 1) <==> EndsRun(frames, j))
  {
    if |frames| > 0 {
      var ft := HasTransparency(frames[0]);
      DiffsFromOrdinals(frames, 0, ft);
      DiffsFromDescribe(frames, 0, ft);
      DiffsFromError(frames, 0, ft);
      if DiffsFrom(frames, 0, ft).1.None? {
        forall j | 0 <= j < |frames|
          ensures IsSent(DiffsFrom(frames, 0, ft).0, j + 1) <==> EndsRun(frames, j)
        {
          DiffsFromSent(frames, 0, ft, j);
        }
      } else {
        OrdinalsBeforeError(frames, 0, ft);
        assert OrdinalsBelow(DiffsFrom(frames, 0, ft).0, DiffsFrom(frames, 0, ft).1.value.ordinal);
        forall j | 0 <= j < |frames| && j + 1 < DiffsFrom(frames, 0, ft).1.value.ordinal
          ensures IsSent(DiffsFrom(frames, 0, ft).0, j + 1) <==> EndsRun(frames, j)
        {
          SentBeforeError(frames, 0, ft, j);
        }
      }
    }
  }
}
