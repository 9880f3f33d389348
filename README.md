# gifski's frame pipeline, modelled in Dafny

gifski turns a sequence of RGBA frames into an animated GIF. This project
models the per-frame logic of `gifski-api/src/lib.rs`. It covers the
stages a frame passes through:

- **Collector** (`Collect`, `Config`): the target size for an input
  frame, and binarisation of its alpha channel with an 8×8 ordered-dither
  matrix.
- **Diff stage** (`DiffStage`): each frame is compared with the next one.
  This gives a per-pixel importance map and a GIF disposal method, skips
  frames identical to their successor, and rejects frames of different
  sizes.
- **Quantize stage** (`Quantize`): importance is attenuated where the
  pixel barely differs from the frame still on screen, and the quality
  handed to the quantizer is chosen.
- **Remap stage** (`Palette`, `Trim`): all transparent palette entries
  are merged into one transparent index. Rows that would not change the
  screen are trimmed off the bottom and top of a frame.
- **Writer** (`Output`, `OutputFacts`): frames are written with delays in
  hundredths of a second, saturated at 300 s. The progress reporter is
  called once per input frame and can abort the encoding.

Shared pieces:

- `Colors`: the pixel type and gifski's weighted colour distance.
- `Arith`: division and multiplication facts used by the proofs.
- `Wrappers`: `Option`, `Min` and `Max`.

Each stage's loop appears twice:

- as a method over arrays or sequences, proved to compute a specification
  function;
- as that specification function, with lemmas stating what the stage
  promises.

Channels between the stages become sequences. The encoder is a class that
records the frames written to it. The progress reporter is the sequence of
answers it gives.

## Model

| member | source | states |
|---|---|---|
| Colors.ColorDiff | gifski-api/src/lib.rs:615-623 | the distance is at most 255²·6 (390150) and equals 390150 whenever either pixel has alpha 0 |
| Colors.ColorDiffSymmetric | gifski-api/src/lib.rs:615-623 | the distance does not depend on the order of the two pixels |
| Colors.ColorDiffZeroIff | gifski-api/src/lib.rs:615-623 | the distance is 0 exactly when both pixels are visible and have the same RGB |
| Colors.SqChannelBound | gifski-api/src/lib.rs:620-622 | a squared channel difference fits 255², so the `i32`→`u32` casts never wrap |
| Config.ColorQuality | gifski-api/src/lib.rs:71-73 | colour quality is `quality·4/3` capped at 100; it is 100 exactly when quality ≥ 75 |
| Config.ColorQualityMonotone | gifski-api/src/lib.rs:71-73 | a higher quality setting never gives a lower colour quality |
| Config.AutoFactor | gifski-api/src/lib.rs:243 | the common divisor `(w·h + 800·600) / (800·600)` with no limit set; its bounds are in FactorBounds |
| Config.DimensionsForImage | gifski-api/src/lib.rs:240-262 | the target size never exceeds the image; there is no result exactly when only one side is limited and the image's length on that limited side is 0, the divisor in the source |
| Config.Shrink | gifski-api/src/lib.rs:245 | dividing a side by the auto-resize factor never enlarges it |
| Config.Scale | gifski-api/src/lib.rs:252-258 | the scaled side is the floor of `side·part/whole`, and at most `side` |
| Config.ScaledSide | gifski-api/src/lib.rs:252-258 | `side·part/whole` lies in the floor bracket of that ratio |
| Config.BothLimits | gifski-api/src/lib.rs:250-252 | with both limits set, each side is the smaller of its limit and the image's side |
| Config.WidthLimitKeepsAspect | gifski-api/src/lib.rs:253-256 | with only a width limit, width is clamped and height follows the aspect ratio, rounded down |
| Config.HeightLimitKeepsAspect | gifski-api/src/lib.rs:257-260 | with only a height limit, height is clamped and width follows the aspect ratio, rounded down |
| Config.AutoResizeCapsArea | gifski-api/src/lib.rs:242-248 | with no limits, an image under 800×600 pixels of area is kept; a larger one is divided by a factor ≥ 2 to an area below 800·600 |
| Config.FactorBounds | gifski-api/src/lib.rs:243 | the auto-resize factor is at most 1 exactly below the area threshold, and always `area < factor·800·600` |
| Config.ShrunkArea | gifski-api/src/lib.rs:245 | dividing both sides by a factor `f` brings an area below `f·800·600` under 800·600 |
| Collect.Bayer | gifski-api/src/lib.rs:216-224 | every entry of the 8×8 dither matrix is below 64 |
| Collect.Dither | gifski-api/src/lib.rs:216-224 | every threshold is even and between 8 and 134 |
| Collect.DitherAt | gifski-api/src/lib.rs:229 | the threshold at column `x`, row `y` is the matrix entry at `(y mod 8, x mod 8)`, so the matrix tiles the image; it is even and from 8 to 134 |
| Collect.BinaryAlpha | gifski-api/src/lib.rs:228-230 | one pixel of the loop: alpha below 255 becomes 0 under the threshold and 255 otherwise; its properties are in BinaryAlphaFacts |
| Collect.BinaryAlphaFacts | gifski-api/src/lib.rs:226-233 | after binarisation alpha is 0 or 255 and colour is untouched; opaque pixels are unchanged; alpha below 8 always vanishes, alpha 134 and up always shows |
| Collect.BinarizeRow | gifski-api/src/lib.rs:227-232 | the inner loop binarises every pixel of one row against its own threshold and leaves the other rows untouched |
| Collect.MakeAlphaBinary | gifski-api/src/lib.rs:226-233 | the in-place loop over the rows sets every pixel to its binarised value for its own column and row |
| DiffStage.Importance | gifski-api/src/lib.rs:409 | importance is between 85 and 255, and 255 exactly when the colour distance is under one unit (255²·6/170) |
| DiffStage.DiffPixels | gifski-api/src/lib.rs:402-411 | the map has one entry per pixel, each the importance of that pixel against the next frame's |
| DiffStage.AlphaDrops | gifski-api/src/lib.rs:404-405 | some pixel of the next frame has lower alpha than the same pixel of the current frame, the condition for background disposal |
| DiffStage.HasTransparency | gifski-api/src/lib.rs:376 | some pixel of the first frame has alpha below 128, which decides the last frame's disposal |
| DiffStage.DiffPixelsDispose | gifski-api/src/lib.rs:403-406 | the frame is disposed to background exactly when some pixel's alpha drops in the next frame |
| DiffStage.StepAt | gifski-api/src/lib.rs:386-421 | what happens to frame `i`: failure on a size mismatch with its successor, a skip when equal to it, otherwise a message with its importance map and disposal; the last frame gets full importance; its properties are in StepDescribes, MessagesStep and ErrorStep |
| DiffStage.DiffsFrom | gifski-api/src/lib.rs:380-444 | the messages and the error of frames `i..`, frame by frame and stopping at the first failure; its properties are in DiffsFromOrdinals, DiffsFromDescribe, DiffsFromError, DiffsFromSent, OrdinalsBeforeError and SentBeforeError |
| DiffStage.Diffs | gifski-api/src/lib.rs:372-446 | the whole stage, with `NoFrames` when there is no input; its properties are in DiffsContract |
| DiffStage.MakeDiffs | gifski-api/src/lib.rs:372-446 | the look-ahead loop sends exactly the messages of the stage specification and stops with its error |
| DiffStage.StepDescribes | gifski-api/src/lib.rs:386-421 | a message sent for frame `i` carries ordinal `i+1`, that frame, one importance per pixel, in 85..255 and for a frame with a successor equal to `255 − colordiff/2295` against the successor's pixel at the same place, and the disposal the next frame's alpha (or, for the last frame, the first frame's transparency) calls for |
| DiffStage.MessagesStep | gifski-api/src/lib.rs:390-400 | a skipped frame equals its successor, a sent one is the last or differs from it, and its message precedes those of later frames |
| DiffStage.IncreasingCons | gifski-api/src/lib.rs:387 | a message put before messages with higher ordinals keeps the order strictly increasing |
| DiffStage.DiffsFromOrdinals | gifski-api/src/lib.rs:380-444 | messages after frame `i` leave in strictly increasing ordinal order, all above `i` |
| DiffStage.DiffsFromDescribe | gifski-api/src/lib.rs:380-444 | every message sent describes the frame of its ordinal: its image, its per-pixel importance against the next frame (or 255 for the last frame) and its disposal |
| DiffStage.ErrorStep | gifski-api/src/lib.rs:391-394 | frame `i` stops the stage exactly when its successor has another size; otherwise the outcome is that of the later frames |
| DiffStage.DiffsFromError | gifski-api/src/lib.rs:391-394 | the stage fails exactly when two consecutive frames differ in size, and then names the first such pair |
| DiffStage.SentAtOwnStep | gifski-api/src/lib.rs:396-400 | frame `i`'s own ordinal is sent exactly when it is the last frame or differs from its successor |
| DiffStage.SentPastStep | gifski-api/src/lib.rs:396-400 | frame `i` neither sends nor hides any other ordinal: those are sent exactly when the later frames send them |
| DiffStage.DiffsFromSent | gifski-api/src/lib.rs:396-400 | without error a frame is sent exactly when it is the last or differs from its successor |
| DiffStage.OrdinalsBeforeError | gifski-api/src/lib.rs:386-400 | when the stage fails, every message sent before the failure is for a frame before the mismatching pair |
| DiffStage.SentBeforeError | gifski-api/src/lib.rs:396-400 | when the stage fails, each frame before the mismatching pair was sent exactly when it is not identical to its successor |
| DiffStage.DiffsContract | gifski-api/src/lib.rs:372-446 | no frames is `NoFrames`; failure happens exactly when two consecutive frames differ in size, at the first such pair; ordinals increase; every message describes its frame, each pixel's importance being `255 − colordiff/2295` against the next frame's pixel at the same place, with full importance and the first frame's transparency deciding disposal for the last frame; when the stage succeeds a frame is sent exactly when it is the last or differs from its successor; when it fails at ordinal `e`, every message has an ordinal below `e` and each frame before the mismatching pair is sent exactly when it is not identical to its successor |
| Quantize.MinDiff | gifski-api/src/lib.rs:461-462 | the threshold is between 80 and 10080, and 80 when quality ≥ 75 |
| Quantize.MinDiffAntitone | gifski-api/src/lib.rs:461-462 | higher quality never raises the threshold |
| Quantize.Weight | gifski-api/src/lib.rs:480-481 | the weight `min((diff/32)², 256)` is at most 256 |
| Quantize.WeightMonotone | gifski-api/src/lib.rs:480-481 | the weight `min((diff/32)², 256)` never falls as the distance grows |
| Quantize.AttenuateDiff | gifski-api/src/lib.rs:473-482 | attenuated importance never exceeds the original; it is 0 below the threshold and unchanged from a distance of 512 up when the distance is also at least the threshold (for a quality setting of 59 and below, i.e. colour quality 78 and below, the threshold itself is above 512) |
| Quantize.LargeDiffSaturates | gifski-api/src/lib.rs:480-481 | from a distance of 512, `(diff/32)²` reaches the 256 cap |
| Quantize.AttenuateFitsRustTypes | gifski-api/src/lib.rs:480-481 | `t·t` fits `u32` and the capped product fits `u16`, so the casts never wrap |
| Quantize.AttenuateMonotoneInDiff | gifski-api/src/lib.rs:473-482 | a larger distance never gives lower attenuated importance, below and above the threshold alike |
| Quantize.Attenuate | gifski-api/src/lib.rs:473-482 | one pixel of the update, from the distance between the previous frame's pixel and this one: never above the old importance, and 0 under the threshold |
| Quantize.Attenuated | gifski-api/src/lib.rs:463-483 | the rewritten map has one entry per pixel |
| Quantize.AttenuatedEffect | gifski-api/src/lib.rs:463-483 | each entry is the attenuation of the old entry by the distance between the previous and the current pixel at that position |
| Quantize.AttenuateInPlace | gifski-api/src/lib.rs:463-483 | the in-place loop turns the map into its attenuated version |
| Quantize.QuantizeQuality | gifski-api/src/lib.rs:276-280 | the quantizer quality is 100 for ordinal 1 and the colour quality for any later ordinal, so never above 100 nor below the colour quality; it follows the ordinal, not the position in the stream, so when input frame 1 equals frame 2 and is skipped, the first frame quantized (ordinal 2) gets the colour quality |
| Quantize.Prepared | gifski-api/src/lib.rs:460-491 | what the quantizer is handed for one message: the map attenuated against the frame on screen, if any, and the quality for its ordinal; its properties are in PreparedFacts |
| Quantize.Remembered | gifski-api/src/lib.rs:493 | the frame a message leaves on screen: its image when disposed with Keep, none when disposed to background |
| Quantize.Quantized | gifski-api/src/lib.rs:448-496 | the stage's output for all messages, one per message, each prepared against what the previous one left on screen; its properties are in QuantizedStep and QuantizedFacts |
| Quantize.PreparedFacts | gifski-api/src/lib.rs:460-491 | a prepared frame keeps its ordinal, disposal and image; its map has one value per pixel, never above the diff stage's, and is that map itself when no frame stays on screen; quality is at most 100, and 100 for ordinal 1 |
| Quantize.PrepareFrame | gifski-api/src/lib.rs:460-485 | the loop body attenuates a copy of the map in place against the frame on screen, if any, and hands on what the stage specification prepares |
| Quantize.QuantizedStep | gifski-api/src/lib.rs:454-493 | the stage's output for messages `i..` is message `i` prepared against the frame on screen, then the rest prepared against what message `i` leaves on screen |
| Quantize.QuantizeFrames | gifski-api/src/lib.rs:448-496 | no message is `NoFrames`; otherwise every frame is handed on in order, its map attenuated against the image of the message just before it when that message was disposed with Keep, and left as it is when it was disposed to background or is the first |
| Quantize.QuantizedFacts | gifski-api/src/lib.rs:452-493 | frame `k` of the output is prepared from message `k` and from the image of message `k-1` if that one was disposed with Keep, and from nothing else |
| Quantize.SameSizeThroughout | gifski-api/src/lib.rs:391-394 | when consecutive frames agree in size, all agree with the first |
| Quantize.DiffsAreUniform | gifski-api/src/lib.rs:391-394 | a successful diff stage gives maps and images all of the first frame's pixel count, which the quantize stage's row zip relies on |
| Palette.Translucent | gifski-api/src/lib.rs:523 | a palette entry with alpha at most 128 is treated as transparent |
| Palette.FirstTranslucent | gifski-api/src/lib.rs:520-532 | the index found is within the palette and has alpha ≤ 128 |
| Palette.FirstTranslucentIsLowest | gifski-api/src/lib.rs:520-532 | no index is found exactly when no entry is translucent; otherwise no earlier entry is |
| Palette.TransparentIndex | gifski-api/src/lib.rs:521-530 | the transparent index is the first translucent entry |
| Palette.Cleared | gifski-api/src/lib.rs:522-524 | the palette after the loop has the same length; translucent entries get alpha 0 and the others are untouched |
| Palette.Redirected | gifski-api/src/lib.rs:526-530 | the pixels after the loop: same count; pixels using a translucent entry use the transparent index, all others unchanged |
| Palette.Replace | gifski-api/src/lib.rs:527 | every pixel using the new index now uses the old one; all other pixels are unchanged |
| Palette.MergeTransparent | gifski-api/src/lib.rs:520-532 | the in-place loop zeroes translucent alphas, returns the first translucent index, and redirects pixels of later translucent entries to it |
| Palette.MergeLeavesOneTransparentIndex | gifski-api/src/lib.rs:534-538 | after the merge every index is the transparent one, more than half opaque, or unused; a transparent index exists exactly when some entry is translucent |
| Trim.PixelMatches | gifski-api/src/lib.rs:581-583 | an indexed pixel is invisible over a screen pixel when it is the transparent index, or its palette colour equals the screen pixel (an index beyond the palette never matches) |
| Trim.RowMatches | gifski-api/src/lib.rs:580-583 | a row matches when every pixel it shares a column with in the screen row matches; columns beyond the shorter row are not compared, as with `zip` |
| Trim.TrailingMatches | gifski-api/src/lib.rs:578-585 | the count from the bottom covers only matching rows and stops at a row that does not match |
| Trim.LeadingMatches | gifski-api/src/lib.rs:594-601 | the count from the top covers only matching rows and stops at a row that does not match |
| Trim.TrimImage | gifski-api/src/lib.rs:575-613 | cuts the matching rows off the bottom, then off the top of what is left, and gives `None` when every row matches; its properties are in TrimImageContract |
| Trim.DroppedIffAllMatch | gifski-api/src/lib.rs:578-590 | the frame is dropped exactly when it has rows and every row matches the screen |
| Trim.KeptIsTight | gifski-api/src/lib.rs:587-612 | after cutting the trailing and then the leading matching rows, the rest is a tight trim (`TightTrim`): left edge 0, a contiguous non-empty run of the original rows at `top`, every dropped row matching, the first and last kept rows not matching, and `top` below the row count, so it fits the `u16` it is cast to (612) when there are at most 65536 rows |
| Trim.TrimImageContract | gifski-api/src/lib.rs:575-613 | the frame is dropped exactly when it has rows and all match the screen; otherwise the kept rows are a contiguous run at offset (0, top), all dropped rows match, and the first and last kept rows do not; `top` is below the row count and fits the `u16` it is cast to (612) when there are at most 65536 rows |
| Output.Delay | gifski-api/src/lib.rs:309-311 | the delay is at most 30000; it is 0 exactly when the frame ends no later than the time already written; it never overshoots the end time, and hits it exactly when the gap is at most 30000; a longer gap gives exactly 30000 |
| Output.Encoder.constructor | gifski-api/src/lib.rs:113-118 | a new encoder has written nothing and is not finished |
| Output.Encoder.WriteFrame | gifski-api/src/lib.rs:316 | writing appends the frame and its delay to what was written |
| Output.Encoder.Finish | gifski-api/src/lib.rs:327 | finishing marks the encoder finished and writes nothing more |
| Output.Reply | gifski-api/src/lib.rs:322 | the reporter's answer to its `k`-th call; calls past the given answers continue |
| Output.FirstRefusal | gifski-api/src/lib.rs:320-325 | there is no refusal exactly when the reporter continues for every call in the range; otherwise the first call that refuses |
| Output.ReportProgress | gifski-api/src/lib.rs:319-325 | the reporting loop goes on exactly when no call from `done` up to the ordinal refuses; it then has reported up to the ordinal, and otherwise stops just after the first refusal |
| Output.Run | gifski-api/src/lib.rs:304-326 | the loop as a function: frames written with their delays, the number of reports, and whether the run was aborted; its properties are in RunStep and the OutputFacts lemmas |
| Output.RunStep | gifski-api/src/lib.rs:308-326 | one frame of the run: its delay, its write unless the delay is 0, its reports, then the rest of the run or an abort |
| Output.WriteTimed | gifski-api/src/lib.rs:309-317 | the first half of an iteration computes the frame's delay and appends the frame with that delay to the encoder unless it is 0 |
| Output.WriteFrames | gifski-api/src/lib.rs:304-329 | the loop writes the frames and makes the reports of the run specification; the encoder is finished exactly when the run was not aborted |
| OutputFacts.MaxOrdinal | gifski-api/src/lib.rs:320 | the number of frames a complete run reports is the largest ordinal seen (or the earlier count if larger): at least every ordinal, and equal to one of them or to the earlier count |
| OutputFacts.TotalDelayAppend | gifski-api/src/lib.rs:312 | total delay adds up over concatenated writes |
| OutputFacts.FirstRefusalSplit | gifski-api/src/lib.rs:320-325 | the first refusal of a range is that of its first part, or else that of its second |
| OutputFacts.WrittenDelaysInRange | gifski-api/src/lib.rs:309-317 | every frame written has a delay from 1 to 30000: frames with no time left are dropped |
| OutputFacts.ReportsStep | gifski-api/src/lib.rs:319-325 | a refusal while reporting the first frame aborts the run there and is the first refusal overall; otherwise the run's outcome and first refusal are those of the rest |
| OutputFacts.ReportsUntilRefusal | gifski-api/src/lib.rs:319-327 | the run is aborted exactly when the reporter refuses a call for one of the ordinals up to the largest; then the reports stop at that call, otherwise every ordinal is reported once |
| OutputFacts.DelaysAddUp | gifski-api/src/lib.rs:309-317 | in a complete run the written delays add up to the time advanced |
| OutputFacts.ElapsedNeverAhead | gifski-api/src/lib.rs:309-312 | the written time never passes the latest end time |
| OutputFacts.SteadyStep | gifski-api/src/lib.rs:309-312 | with steady end times the first delay is exactly the first gap, and the rest stays steady from the first end time |
| OutputFacts.SteadyEndsAreExact | gifski-api/src/lib.rs:309-312 | when end times never go back and advance by at most 300 s, the written time ends exactly at the last end time, so rounding does not accumulate |
| OutputFacts.SteadyWritesEveryFrame | gifski-api/src/lib.rs:309-317 | when end times strictly advance by at most 300 s, a complete run writes every frame in order, with the gap to the previous end time as its delay |

## Left out

- Threads, channels and the ordering queue (`gifski-api/src/lib.rs:157-171`, `349-370`) are not modelled. Each stage reads and writes sequences in frame order, and `add_frame_rgba` (181-183) is not modelled.
- PNG decoding (192-199) and the Lanczos resize (206-214) are not modelled: they are calls into other libraries. Only the target size and the alpha binarisation that follows are modelled.
- Quantization and remapping by libimagequant (271-302) are not modelled. Only the quality choice (276-280) is. The palette produced is assumed to have at most 256 entries, which libimagequant guarantees.
- The `fast` speed setting (273-275) and the dithering level (296) are parameters of that library and are not modelled.
- `gifsicle_loss` (80-82) is not modelled: it is floating-point arithmetic used by a lossy back-end.
- Presentation timestamps are `f64` in the source. Their arithmetic in the diff stage (424-433) is not modelled, nor is the rounding `(end_pts*100).round()` (309). `Output.FrameMessage.endCs` is the already rounded end time in hundredths of a second.
- Disposal and blitting on the `gif_dispose::Screen` (500, 513, 561) are not modelled. `Trim.TrimImage` takes the screen after disposal as an input.
- The outer loop of `remap_frames` (498-573) is not modelled, nor is its choice of when to trim (540-548). Its two pieces of logic are modelled: the palette merge and `trim_image`.
- The encoder back-ends (gifsicle, the `gif` crate) and the errors that `write_frame` and `finish` can return are not modelled. `Output.Encoder` records what it is given and never fails.
- Image strides and sub-image views are not modelled. Images are flat row-major sequences, and trimmed frames are sequences of rows.
- `usize`/`u64` overflow is not modelled: integers are unbounded. The narrower `u8`/`u16`/`u32` arithmetic is proved not to wrap (`Colors.SqChannelBound`, `Quantize.AttenuateFitsRustTypes`, `Output.Delay`). The `top as _` cast to `u16` in `trim_image` (612) is proved lossless only for frames of at most 65536 rows (`Trim.TrimImageContract`); the model does not itself bound a frame's height.
- `chunks_exact_mut(image.width())` panics on a zero-width frame (464). This is not modelled: the quantize stage works on flat sequences of equal length, which gives the same pixel pairing for any width.
- Config.DimensionsForImage: with only the width limit set and an image width of 0 (255), or only the height limit set and an image height of 0 (259), the source divides by zero and panics. The model returns `None` instead.
- Trim.TrimImage: requires the screen to have the frame's height. Its only caller (541) passes the screen created with the first frame's size (500), and every frame has that size, so other heights never reach it.
- Quantize.QuantizeFrames: requires every message and the remembered frame to have the same pixel count. `Quantize.DiffsAreUniform` proves that a successful diff stage provides this.
- Output.WriteFrames: calls to the reporter beyond the given answers are taken as "continue".
