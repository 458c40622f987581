/**
  The playback loop of the compute renderer (computeRenderer/Renderer.cpp):
  the same step handling and 33 ms timer as the plain renderer, but a pass
  only runs the compute shader, draws and swaps when playing or stepping,
  and every such pass bumps a statistics counter that resets at 60.
 */
module ComputeLoop {
  import opened Wrappers
  import opened Orders
  import opened NumericOrder
  import opened Images
  import opened ImageStore
  import opened Playback
  import opened Int32
  import RenderLoop

  /** `statsResetInterval`: the statistics are reported and reset every 60 presented frames. */
  const StatsResetInterval: int := 60

  // ---------------------------------------------------------------------------
  // Integer helpers

  /**
    The work-group count along one texture dimension `d` for 16x16 groups:
    `(d + 15) / 16`. The dimension is a non-negative `GLint` no larger than
    the GL texture size limit, so `d + 15` does not overflow.
   */
  function GroupCount(d: int): (g: int)
    requires 0 <= d <= IntMax - 15
    ensures 0 <= g && 16 * g >= d
    ensures d > 0 ==> 16 * (g - 1) < d
    ensures d == 0 ==> g == 0
  {
    (d + 15) / 16
  }

  /** The groups cover the dimension and no smaller count does. */
  lemma GroupCountIsLeast(d: int, m: int)
    requires 0 <= d <= IntMax - 15
    requires 16 * m >= d
    ensures m >= GroupCount(d)
  {
  }

  /** A dimension that is an exact multiple of 16 needs exactly that many groups. */
  lemma GroupCountOfMultiple(k: int)
    requires 0 <= k && 16 * k <= IntMax - 15
    ensures GroupCount(16 * k) == k
  {
  }

  /** `frameCount` after one `renderProcessedImage`: incremented, then reset to 0 on reaching 60. */
  function NextFrameCount(c: int): (r: int)
    ensures 0 <= c < StatsResetInterval ==> 0 <= r < StatsResetInterval
    ensures c + 1 < StatsResetInterval ==> r == c + 1
    ensures c + 1 >= StatsResetInterval ==> r == 0
  {
    if c + 1 >= StatsResetInterval then 0 else c + 1
  }

  /** `k` presented frames. */
  function FrameCountAfter(c: int, k: nat): int
    decreases k
  {
    if k == 0 then c else NextFrameCount(FrameCountAfter(c, k - 1))
  }

  /** Starting from 0, the counter after `k` presented frames is `k mod 60`, so it stays in [0, 60). */
  lemma {:induction false} FrameCountWraps(k: nat)
    ensures FrameCountAfter(0, k) == k % StatsResetInterval
    ensures 0 <= FrameCountAfter(0, k) < StatsResetInterval
  {
    if k > 0 {
      FrameCountWraps(k - 1);
      var x := k - 1;
      var q, j := x / 60, x % 60;
      assert x == q * 60 + j;
      if j + 1 < 60 {
        ModUnique(k, 60, q, j + 1);
      } else {
        ModUnique(k, 60, q + 1, 0);
      }
    }
  }

  // ---------------------------------------------------------------------------
  // Texture update

  /**
    `updateTexture`: nothing when there are no names, the record is missing
    or invalid, or its channel count has no format; otherwise the input
    texture takes the record with the format `FormatFor` picks.
   */
  function UpdateTexture(names: seq<string>, store: Store, index: nat): (r: Option<Upload>)
    requires |names| == 0 || index < |names|
    ensures r.Some? <==> var rec := CurrentRecord(names, store, index);
      rec.Some? && IsValid(rec.value) && FormatFor(rec.value.channels).Some?
    ensures r.Some? ==> var img := CurrentRecord(names, store, index).value;
      && r.value.width == img.width && r.value.height == img.height && r.value.data == img.data
      && BytesPerPixel(r.value.format) == img.channels
      && r.value.rowAlignment == DefaultUnpackAlignment
  {
    match CurrentRecord(names, store, index)
    case None => None
    case Some(img) =>
      if !IsValid(img) then None
      else match FormatFor(img.channels)
        case None => None
        case Some(f) => Some(Upload(f, img.width, img.height, img.data, DefaultUnpackAlignment))
  }

  /**
    Over a map of well-shaped records, an upload stays inside its buffer
    exactly when its rows need no padding to the default alignment of four:
    a single row, or a row length `width * channels` that is a multiple of
    four. It then reads the buffer to its end; otherwise it reads past it.
   */
  lemma UploadInBoundsIffRowsUnpadded(names: seq<string>, store: Store, index: nat)
    requires |names| == 0 || index < |names|
    requires AllWellShaped(store)
    ensures UpdateTexture(names, store, index).Some? ==>
      var u := UpdateTexture(names, store, index).value;
      && (InBounds(u) <==> u.height == 1 || (u.width * BytesPerPixel(u.format)) % DefaultUnpackAlignment == 0)
      && (InBounds(u) ==> ReadSize(u) == |u.data|)
  {
    if |names| > 0 {
      FindWellShaped(NumericLess, store, names[index]);
      if UpdateTexture(names, store, index).Some? {
        FormatForReadsWholeBuffer(CurrentRecord(names, store, index).value, DefaultUnpackAlignment);
      }
    }
  }

  /**
    `updateTexture` as evidently intended: the same upload, issued after
    `glPixelStorei(GL_UNPACK_ALIGNMENT, 1)` so that GL takes the rows as
    packed, as `stbi_load` lays them out.
   */
  function UpdateTexturePacked(names: seq<string>, store: Store, index: nat): (r: Option<Upload>)
    requires |names| == 0 || index < |names|
    ensures r.Some? <==> UpdateTexture(names, store, index).Some?
    ensures r.Some? ==> r.value == UpdateTexture(names, store, index).value.(rowAlignment := PackedAlignment)
  {
    match UpdateTexture(names, store, index)
    case None => None
    case Some(u) => Some(u.(rowAlignment := PackedAlignment))
  }

  /** Over a map of well-shaped records, the packed upload reads its buffer exactly to the end and no further. */
  lemma PackedUploadReadsWholeBuffer(names: seq<string>, store: Store, index: nat)
    requires |names| == 0 || index < |names|
    requires AllWellShaped(store)
    ensures UpdateTexturePacked(names, store, index).Some? ==>
      var u := UpdateTexturePacked(names, store, index).value;
      InBounds(u) && ReadSize(u) == |u.data|
  {
    if |names| > 0 {
      FindWellShaped(NumericLess, store, names[index]);
      if UpdateTexture(names, store, index).Some? {
        FormatForReadsWholeBuffer(CurrentRecord(names, store, index).value, PackedAlignment);
      }
    }
  }

  /**
    A two-pixel-high column of one RGB pixel, whatever its name: the upload
    reads seven bytes of the six the record holds, because GL starts the
    second three-byte row at byte 4. With packed rows it reads exactly six.
   */
  lemma RgbColumnOverRead(name: string)
    ensures var img := FromDecoded(Decoded(1, 2, 3, [0, 0, 0, 0, 0, 0]));
      var store := Assign(NumericLess, [], name, img);
      && UpdateTexture([name], store, 0) == Some(Upload(Rgb, 1, 2, [0, 0, 0, 0, 0, 0], DefaultUnpackAlignment))
      && ReadSize(UpdateTexture([name], store, 0).value) == 7
      && ReadSize(UpdateTexturePacked([name], store, 0).value) == 6
  {
    var img := FromDecoded(Decoded(1, 2, 3, [0, 0, 0, 0, 0, 0]));
    assert img == ImageData(1, 2, 3, [0, 0, 0, 0, 0, 0]);
    SoleRecordUpload(name, img);
    assert RowStride(3, DefaultUnpackAlignment) == 4;
    assert RowStride(3, PackedAlignment) == 3;
  }

  /** The upload issued for the only record of a map, behind a name list holding its name. */
  lemma SoleRecordUpload(name: string, img: ImageData)
    requires IsValid(img) && FormatFor(img.channels).Some?
    ensures UpdateTexture([name], Assign(NumericLess, [], name, img), 0) ==
      Some(Upload(FormatFor(img.channels).value, img.width, img.height, img.data, DefaultUnpackAlignment))
  {
    SoleRecordIsCurrent(name, img);
  }

  /** The packed channel switch of this renderer is the corrected upload of the plain one. */
  lemma SameUploadAsIntended(names: seq<string>, store: Store, index: nat)
    requires |names| == 0 || index < |names|
    ensures UpdateTexturePacked(names, store, index) == RenderLoop.UpdateTextureIntended(names, store, index)
  {
  }

  // ---------------------------------------------------------------------------
  // The loop

  /** The playback record plus the statistics counter. */
  datatype ComputeState = ComputeState(play: PlaybackState, frameCount: int)

  /** The constructor: playback from the first image, the counter at 0. */
  function InitialCompute(startMs: int): (c: ComputeState)
    ensures c.play == Initial(startMs) && c.frameCount == 0
  {
    ComputeState(Initial(startMs), 0)
  }

  /** What one pass of the loop does that can be seen from outside. */
  datatype ComputeFrame = ComputeFrame(step: StepTaken, advanced: bool, uploads: seq<Upload>, presented: bool)

  /**
    One pass of `renderLoop` as written: the step handling clears the flag
    it consumed before the loop asks whether it is stepping, so a paused
    pass presents only when both requests were pending.
   */
  function ComputeTick(names: seq<string>, store: Store, c: ComputeState, nowMs: int): (r: (ComputeState, ComputeFrame))
    requires Valid(|names|, c.play)
    ensures Valid(|names|, r.0.play)
    ensures r.1.step == ConsumeStep(|names|, c.play).1
    ensures !r.0.play.stepForward && r.0.play.stepBackward == (c.play.stepForward && c.play.stepBackward)
    ensures r.0.play.paused == c.play.paused
    ensures r.1.presented <==> !c.play.paused || (c.play.stepForward && c.play.stepBackward)
    ensures r.1.advanced <==> !c.play.paused && nowMs - c.play.lastAdvanceMs >= FrameIntervalMs
    ensures r.0.play.lastAdvanceMs == if r.1.advanced then nowMs else c.play.lastAdvanceMs
    ensures r.0.frameCount == if r.1.presented then NextFrameCount(c.frameCount) else c.frameCount
    ensures |r.1.uploads| <= 2
    ensures |names| == 0 ==> r.1.uploads == []
    ensures r.1.uploads == PassUploads(
      r.1.step != NoStep, UpdateTexture(names, store, ConsumeStep(|names|, c.play).0.index),
      r.1.advanced, UpdateTexture(names, store, r.0.play.index))
  {
    var n := |names|;
    var (p1, step) := ConsumeStep(n, c.play);
    ConsumeStepKeepsValid(n, c.play);
    var presented := !p1.paused || p1.stepForward || p1.stepBackward;
    var advanced := presented && DueForAdvance(p1, nowMs);
    var p2 := if advanced then p1.(index := NextIndex(n, p1.index), lastAdvanceMs := nowMs) else p1;
    var uploads := PassUploads(step != NoStep, UpdateTexture(names, store, p1.index), advanced, UpdateTexture(names, store, p2.index));
    var count := if presented then NextFrameCount(c.frameCount) else c.frameCount;
    (ComputeState(p2, count), ComputeFrame(step, advanced, uploads, presented))
  }

  /**
    Whenever a pass moves the index, the input texture it leaves bound is
    the record at the new index: the last upload is that record's, if it is usable.
   */
  lemma ComputeTickShowsCurrent(names: seq<string>, store: Store, c: ComputeState, nowMs: int)
    requires Valid(|names|, c.play)
    ensures var r := ComputeTick(names, store, c, nowMs);
      (r.1.step != NoStep || r.1.advanced) && UpdateTexture(names, store, r.0.play.index).Some? ==>
        |r.1.uploads| > 0 && r.1.uploads[|r.1.uploads| - 1] == UpdateTexture(names, store, r.0.play.index).value
  {
  }

  /** Both renderers drive the playback record identically; only what they show differs. */
  lemma SamePlaybackAsRenderLoop(names: seq<string>, store: Store, c: ComputeState, nowMs: int)
    requires Valid(|names|, c.play)
    ensures ComputeTick(names, store, c, nowMs).0.play == RenderLoop.RenderTick(names, store, c.play, nowMs).0
    ensures ComputeTick(names, store, c, nowMs).1.step == RenderLoop.RenderTick(names, store, c.play, nowMs).1.step
    ensures ComputeTick(names, store, c, nowMs).1.advanced == RenderLoop.RenderTick(names, store, c.play, nowMs).1.advanced
  {
  }

  /** Starting from a counter in [0, 60), the counter stays there. */
  lemma ComputeTickKeepsCounter(names: seq<string>, store: Store, c: ComputeState, nowMs: int)
    requires Valid(|names|, c.play) && 0 <= c.frameCount < StatsResetInterval
    ensures 0 <= ComputeTick(names, store, c, nowMs).0.frameCount < StatsResetInterval
  {
  }

  /** A stream of events: key presses change the record, each pass yields a frame. */
  function ComputeRun(names: seq<string>, store: Store, c: ComputeState, events: seq<Event>): (r: (ComputeState, seq<ComputeFrame>))
    requires Valid(|names|, c.play)
    ensures Valid(|names|, r.0.play)
    ensures |r.1| == TickCount(events)
    decreases |events|
  {
    if |events| == 0 then (c, [])
    else
      var init := ComputeRun(names, store, c, events[..|events| - 1]);
      match events[|events| - 1]
      case Tick(nowMs) =>
        var (t, frame) := ComputeTick(names, store, init.0, nowMs);
        (t, init.1 + [frame])
      case e =>
        ControlsKeepValid(|names|, init.0.play);
        (init.0.(play := Control(init.0.play, e)), init.1)
  }

  /** Whatever the events, a counter that starts in [0, 60) stays there: the reset bounds it. */
  lemma {:induction false} ComputeRunKeepsCounter(names: seq<string>, store: Store, c: ComputeState, events: seq<Event>)
    requires Valid(|names|, c.play) && 0 <= c.frameCount < StatsResetInterval
    ensures 0 <= ComputeRun(names, store, c, events).0.frameCount < StatsResetInterval
  {
    if |events| > 0 {
      var init := events[..|events| - 1];
      ComputeRunKeepsCounter(names, store, c, init);
      var prev := ComputeRun(names, store, c, init);
      if events[|events| - 1].Tick? {
        ComputeTickKeepsCounter(names, store, prev.0, events[|events| - 1].nowMs);
      }
    }
  }

  // ---------------------------------------------------------------------------
  // Single steps while paused

  /**
    Paused with only a forward request pending, the pass moves to the next
    image and uploads it, but never draws or swaps: the window keeps
    showing the previous frame.
   */
  lemma PausedSingleStepNotPresented(names: seq<string>, store: Store, c: ComputeState, nowMs: int)
    requires |names| > 0 && Valid(|names|, c.play)
    requires c.play.paused && c.play.stepForward && !c.play.stepBackward
    ensures var r := ComputeTick(names, store, c, nowMs);
      && r.1.step == Forward
      && r.0.play.index == NextIndex(|names|, c.play.index)
      && (|names| > 1 ==> r.0.play.index != c.play.index)
      && !r.1.presented
      && r.0.frameCount == c.frameCount
  {
  }

  /** The same through the keys: pause, step forward, one pass; nothing is presented on that pass. */
  lemma PausedStepKeyNotPresented(names: seq<string>, store: Store, c: ComputeState, nowMs: int)
    requires |names| > 0 && Valid(|names|, c.play)
    requires c.play.paused && !c.play.stepForward && !c.play.stepBackward
    ensures var r := ComputeRun(names, store, c, [ForwardKey, Tick(nowMs)]);
      && r.0.play.index == NextIndex(|names|, c.play.index)
      && |r.1| == 1 && r.1[0].step == Forward && !r.1[0].presented
  {
    var events := [ForwardKey, Tick(nowMs)];
    assert events[..1] == [ForwardKey];
    assert events[..1][..0] == [];
    var c1 := c.(play := RequestStepForward(c.play));
    assert ComputeRun(names, store, c, events[..1]) == (c1, []);
    var r := ComputeTick(names, store, c1, nowMs);
    assert |events| == 2 && events[1] == Tick(nowMs);
    assert ComputeRun(names, store, c, events) == (r.0, ComputeRun(names, store, c, events[..1]).1 + [r.1]);
    assert [] + [r.1] == [r.1];
  }

  /**
    The pass as evidently intended: whether the loop is stepping is decided
    before the consumed request is cleared, so every step is presented.
   */
  function ComputeTickIntended(names: seq<string>, store: Store, c: ComputeState, nowMs: int): (r: (ComputeState, ComputeFrame))
    requires Valid(|names|, c.play)
    ensures Valid(|names|, r.0.play)
    ensures r.1.step == ConsumeStep(|names|, c.play).1
    ensures r.1.presented <==> !c.play.paused || r.1.step != NoStep
    ensures r.1.advanced <==> !c.play.paused && nowMs - c.play.lastAdvanceMs >= FrameIntervalMs
    ensures r.0.frameCount == if r.1.presented then NextFrameCount(c.frameCount) else c.frameCount
  {
    var n := |names|;
    var stepping := !c.play.paused || c.play.stepForward || c.play.stepBackward;
    var (p1, step) := ConsumeStep(n, c.play);
    ConsumeStepKeepsValid(n, c.play);
    var advanced := stepping && DueForAdvance(p1, nowMs);
    var p2 := if advanced then p1.(index := NextIndex(n, p1.index), lastAdvanceMs := nowMs) else p1;
    var uploads := PassUploads(step != NoStep, UpdateTexture(names, store, p1.index), advanced, UpdateTexture(names, store, p2.index));
    var count := if stepping then NextFrameCount(c.frameCount) else c.frameCount;
    (ComputeState(p2, count), ComputeFrame(step, advanced, uploads, stepping))
  }

  /**
    The intended pass changes the state exactly as the written one and
    uploads the same; it differs only in presenting a paused single step.
   */
  lemma IntendedDiffersOnlyInPresenting(names: seq<string>, store: Store, c: ComputeState, nowMs: int)
    requires Valid(|names|, c.play)
    ensures var a := ComputeTick(names, store, c, nowMs);
      var b := ComputeTickIntended(names, store, c, nowMs);
      && a.0.play == b.0.play && a.1.step == b.1.step && a.1.advanced == b.1.advanced && a.1.uploads == b.1.uploads
      && (a.1.presented != b.1.presented <==> c.play.paused && (c.play.stepForward != c.play.stepBackward))
  {
  }
}
