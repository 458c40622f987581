/**
  The playback loop of the plain renderer (render/Renderer.cpp): it
  consumes one step request, advances on a 33 ms timer while playing, and
  draws and swaps on every pass, paused or not.
 */
module RenderLoop {
  import opened Wrappers
  import opened Orders
  import opened NumericOrder
  import opened Images
  import opened ImageStore
  import opened Playback

  /**
    `updateTexture` as written: nothing when there are no names or the
    record is missing or invalid; otherwise an upload as RGBA when the record
    has four channels and as RGB for every other channel count.
   */
  function UpdateTexture(names: seq<string>, store: Store, index: nat): (r: Option<Upload>)
    requires |names| == 0 || index < |names|
    ensures r.Some? <==> CurrentRecord(names, store, index).Some? && IsValid(CurrentRecord(names, store, index).value)
    ensures r.Some? ==> var img := CurrentRecord(names, store, index).value;
      && r.value.width == img.width && r.value.height == img.height && r.value.data == img.data
      && (r.value.format == Rgba <==> img.channels == 4)
      && r.value.format != Luminance
      && r.value.rowAlignment == DefaultUnpackAlignment
  {
    match CurrentRecord(names, store, index)
    case None => None
    case Some(img) =>
      if IsValid(img) then
        Some(Upload(if img.channels == 4 then Rgba else Rgb, img.width, img.height, img.data, DefaultUnpackAlignment))
      else None
  }

  /** What one pass of the loop does that can be seen from outside. */
  datatype RenderFrame = RenderFrame(step: StepTaken, advanced: bool, uploads: seq<Upload>, presented: bool)

  /**
    One pass of `renderLoop`: the step handling, the timer check against
    the clock reading `nowMs`, then the clear, draw and swap.
   */
  function RenderTick(names: seq<string>, store: Store, s: PlaybackState, nowMs: int): (r: (PlaybackState, RenderFrame))
    requires Valid(|names|, s)
    ensures Valid(|names|, r.0)
    ensures r.1.presented
    ensures r.1.step == ConsumeStep(|names|, s).1
    ensures !r.0.stepForward && r.0.stepBackward == (s.stepForward && s.stepBackward)
    ensures r.0.paused == s.paused
    ensures r.1.advanced <==> !s.paused && nowMs - s.lastAdvanceMs >= FrameIntervalMs
    ensures r.0.lastAdvanceMs == if r.1.advanced then nowMs else s.lastAdvanceMs
    ensures |r.1.uploads| <= 2
    ensures |names| == 0 ==> r.1.uploads == []
    ensures r.1.uploads == PassUploads(
      r.1.step != NoStep, UpdateTexture(names, store, ConsumeStep(|names|, s).0.index),
      r.1.advanced, UpdateTexture(names, store, r.0.index))
  {
    var n := |names|;
    var (s1, step) := ConsumeStep(n, s);
    ConsumeStepKeepsValid(n, s);
    var advanced := DueForAdvance(s1, nowMs);
    var s2 := if advanced then s1.(index := NextIndex(n, s1.index), lastAdvanceMs := nowMs) else s1;
    var uploads := PassUploads(step != NoStep, UpdateTexture(names, store, s1.index), advanced, UpdateTexture(names, store, s2.index));
    (s2, RenderFrame(step, advanced, uploads, true))
  }

  /** The index a pass leaves: the step's move, then one `nextFrame` if the timer fired. */
  lemma RenderTickIndex(names: seq<string>, store: Store, s: PlaybackState, nowMs: int)
    requires Valid(|names|, s)
    ensures var r := RenderTick(names, store, s, nowMs);
      r.0.index == Advance(|names|, ConsumeStep(|names|, s).0.index, if r.1.advanced then 1 else 0)
  {
  }

  /**
    Whenever a pass moves the index, the texture it leaves bound is the
    record at the new index: the last upload is that record's, if it is usable.
   */
  lemma RenderTickShowsCurrent(names: seq<string>, store: Store, s: PlaybackState, nowMs: int)
    requires Valid(|names|, s)
    ensures var r := RenderTick(names, store, s, nowMs);
      (r.1.step != NoStep || r.1.advanced) && UpdateTexture(names, store, r.0.index).Some? ==>
        |r.1.uploads| > 0 && r.1.uploads[|r.1.uploads| - 1] == UpdateTexture(names, store, r.0.index).value
  {
    RenderTickIndex(names, store, s, nowMs);
  }

  /** A paused pass with no step pending changes nothing and uploads nothing, but still presents. */
  lemma PausedTickHoldsFrame(names: seq<string>, store: Store, s: PlaybackState, nowMs: int)
    requires Valid(|names|, s)
    requires s.paused && !s.stepForward && !s.stepBackward
    ensures RenderTick(names, store, s, nowMs) == (s, RenderFrame(NoStep, false, [], true))
  {
  }

  /**
    A step requested while paused and still pending after playback resumed
    does not replace the timer advance: a pass that is due does both, and
    moves two images on.
   */
  lemma ResumedStepAndAdvance(names: seq<string>, store: Store, s: PlaybackState, nowMs: int)
    requires Valid(|names|, s)
    requires !s.paused && s.stepForward
    requires nowMs - s.lastAdvanceMs >= FrameIntervalMs
    ensures var r := RenderTick(names, store, s, nowMs);
      && r.1.step == Forward && r.1.advanced
      && r.0.index == NextIndex(|names|, NextIndex(|names|, s.index))
  {
  }

  /** A stream of events: key presses change the record, each pass yields a frame. */
  function RenderRun(names: seq<string>, store: Store, s: PlaybackState, events: seq<Event>): (r: (PlaybackState, seq<RenderFrame>))
    requires Valid(|names|, s)
    ensures Valid(|names|, r.0)
    ensures |r.1| == TickCount(events)
    decreases |events|
  {
    if |events| == 0 then (s, [])
    else
      var init := RenderRun(names, store, s, events[..|events| - 1]);
      match events[|events| - 1]
      case Tick(nowMs) =>
        var (t, frame) := RenderTick(names, store, init.0, nowMs);
        (t, init.1 + [frame])
      case e =>
        ControlsKeepValid(|names|, init.0);
        (Control(init.0, e), init.1)
  }

  /** Clock readings at least one frame interval apart, the first one frame after `startMs`. */
  predicate Paced(startMs: int, times: seq<int>) {
    && (|times| > 0 ==> times[0] - startMs >= FrameIntervalMs)
    && forall j :: 0 < j < |times| ==> times[j] - times[j - 1] >= FrameIntervalMs
  }

  function Ticks(times: seq<int>): (r: seq<Event>)
    ensures |r| == |times|
    ensures forall j :: 0 <= j < |times| ==> r[j] == Tick(times[j])
  {
    seq(|times|, j requires 0 <= j < |times| => Tick(times[j]))
  }

  /** A playing pass with nothing pending, a frame interval after the baseline, advances once. */
  lemma PlayingTickAdvances(names: seq<string>, store: Store, s: PlaybackState, nowMs: int)
    requires Valid(|names|, s)
    requires !s.paused && !s.stepForward && !s.stepBackward
    requires nowMs - s.lastAdvanceMs >= FrameIntervalMs
    ensures var r := RenderTick(names, store, s, nowMs);
      && r.0 == s.(index := NextIndex(|names|, s.index), lastAdvanceMs := nowMs)
      && r.1.advanced && r.1.presented && r.1.step == NoStep
  {
  }

  /** A run extended by one pass ends where that pass takes the run's final state. */
  lemma RenderRunThenTick(names: seq<string>, store: Store, s: PlaybackState, events: seq<Event>, nowMs: int)
    requires Valid(|names|, s)
    ensures var prev := RenderRun(names, store, s, events);
      var tick := RenderTick(names, store, prev.0, nowMs);
      RenderRun(names, store, s, events + [Tick(nowMs)]) == (tick.0, prev.1 + [tick.1])
  {
    assert (events + [Tick(nowMs)])[..|events|] == events;
  }

  /** A run of clock readings ends with the pass at the last reading. */
  lemma TickRunThenTick(names: seq<string>, store: Store, s: PlaybackState, times: seq<int>)
    requires Valid(|names|, s) && |times| > 0
    ensures var prev := RenderRun(names, store, s, Ticks(times[..|times| - 1]));
      var tick := RenderTick(names, store, prev.0, times[|times| - 1]);
      RenderRun(names, store, s, Ticks(times)) == (tick.0, prev.1 + [tick.1])
  {
    var init := times[..|times| - 1];
    assert Ticks(times) == Ticks(init) + [Tick(times[|times| - 1])];
    RenderRunThenTick(names, store, s, Ticks(init), times[|times| - 1]);
  }

  /** Dropping the last reading keeps a run paced, and the last reading is a frame interval after the one before. */
  lemma PacedPrefix(startMs: int, times: seq<int>)
    requires |times| > 0 && Paced(startMs, times)
    ensures Paced(startMs, times[..|times| - 1])
    ensures var init := times[..|times| - 1];
      times[|times| - 1] - (if |init| == 0 then startMs else init[|init| - 1]) >= FrameIntervalMs
  {
  }

  /**
    Playing with nothing pending, passes that come a frame interval apart
    each advance once: after `k` of them the index has moved `k` times and
    the timer baseline is the last reading.
   */
  lemma {:induction false} PlayingRunAdvancesEachPass(names: seq<string>, store: Store, s: PlaybackState, times: seq<int>)
    requires Valid(|names|, s)
    requires !s.paused && !s.stepForward && !s.stepBackward
    requires Paced(s.lastAdvanceMs, times)
    ensures RenderRun(names, store, s, Ticks(times)).0 ==
      s.(index := Advance(|names|, s.index, |times|),
         lastAdvanceMs := if |times| == 0 then s.lastAdvanceMs else times[|times| - 1])
  {
    if |times| > 0 {
      var init := times[..|times| - 1];
      var last := times[|times| - 1];
      var lastInit := if |init| == 0 then s.lastAdvanceMs else init[|init| - 1];
      PacedPrefix(s.lastAdvanceMs, times);
      var prev := RenderRun(names, store, s, Ticks(init));
      assert prev.0 == s.(index := Advance(|names|, s.index, |init|), lastAdvanceMs := lastInit) by {
        PlayingRunAdvancesEachPass(names, store, s, init);
      }
      assert RenderRun(names, store, s, Ticks(times)).0 == RenderTick(names, store, prev.0, last).0 by {
        TickRunThenTick(names, store, s, times);
      }
      assert RenderTick(names, store, prev.0, last).0 == prev.0.(index := NextIndex(|names|, prev.0.index), lastAdvanceMs := last) by {
        PlayingTickAdvances(names, store, prev.0, last);
      }
      assert Advance(|names|, s.index, |times|) == NextIndex(|names|, Advance(|names|, s.index, |init|));
    }
  }

  /** A frame of uninterrupted playback: no step, a timer advance, and a present. */
  predicate PlayingFrame(f: RenderFrame) {
    f.advanced && f.presented && f.step == NoStep
  }

  /** In the same run every pass yields a frame, and each one advanced and presented. */
  lemma {:induction false} PlayingRunFrames(names: seq<string>, store: Store, s: PlaybackState, times: seq<int>)
    requires Valid(|names|, s)
    requires !s.paused && !s.stepForward && !s.stepBackward
    requires Paced(s.lastAdvanceMs, times)
    ensures var frames := RenderRun(names, store, s, Ticks(times)).1;
      |frames| == |times| && forall j :: 0 <= j < |frames| ==> PlayingFrame(frames[j])
  {
    if |times| > 0 {
      var init := times[..|times| - 1];
      var last := times[|times| - 1];
      PacedPrefix(s.lastAdvanceMs, times);
      var prev := RenderRun(names, store, s, Ticks(init));
      var tick := RenderTick(names, store, prev.0, last);
      assert |prev.1| == |init| && forall j :: 0 <= j < |prev.1| ==> PlayingFrame(prev.1[j]) by {
        PlayingRunFrames(names, store, s, init);
      }
      assert RenderRun(names, store, s, Ticks(times)).1 == prev.1 + [tick.1] by {
        TickRunThenTick(names, store, s, times);
      }
      assert PlayingFrame(tick.1) by {
        PlayingRunAdvancesEachPass(names, store, s, init);
        PlayingTickAdvances(names, store, prev.0, last);
      }
      var frames := prev.1 + [tick.1];
      forall j | 0 <= j < |frames| ensures PlayingFrame(frames[j]) {
        if j < |prev.1| { assert frames[j] == prev.1[j]; }
      }
    }
  }

  /** The same run over `n` names: the index lands on `(index + k) mod n`. */
  lemma PlayingRunAdvances(names: seq<string>, store: Store, s: PlaybackState, times: seq<int>)
    requires |names| > 0 && Valid(|names|, s)
    requires !s.paused && !s.stepForward && !s.stepBackward
    requires Paced(s.lastAdvanceMs, times)
    ensures RenderRun(names, store, s, Ticks(times)).0.index == (s.index + |times|) % |names|
  {
    var r := RenderRun(names, store, s, Ticks(times));
    PlayingRunAdvancesEachPass(names, store, s, times);
    assert r.0.index == Advance(|names|, s.index, |times|);
    assert Advance(|names|, s.index, |times|) == (s.index + |times|) % |names| by {
      AdvanceIsModular(|names|, s.index, |times|);
    }
  }

  /** Playing through as many passes as there are names shows every name once and comes back to the start. */
  lemma PlayingRunCycles(names: seq<string>, store: Store, s: PlaybackState, times: seq<int>)
    requires |names| > 0 && Valid(|names|, s)
    requires !s.paused && !s.stepForward && !s.stepBackward
    requires Paced(s.lastAdvanceMs, times) && |times| == |names|
    ensures RenderRun(names, store, s, Ticks(times)).0.index == s.index
  {
    PlayingRunAdvancesEachPass(names, store, s, times);
    FullCycleReturns(|names|, s.index);
  }

  /**
    Paused: a step key followed by one pass moves one frame forward, uploads
    the new frame if its record is usable, and presents it.
   */
  lemma PausedStepShowsNextFrame(names: seq<string>, store: Store, s: PlaybackState, nowMs: int)
    requires |names| > 0 && Valid(|names|, s)
    requires s.paused && !s.stepForward && !s.stepBackward
    ensures var r := RenderRun(names, store, s, [ForwardKey, Tick(nowMs)]);
      && r.0.index == NextIndex(|names|, s.index)
      && r.1 == [RenderFrame(Forward, false, Issued(UpdateTexture(names, store, r.0.index)), true)]
  {
    var events := [ForwardKey, Tick(nowMs)];
    assert events[..1] == [ForwardKey];
    assert events[..1][..0] == [];
    var s1 := RequestStepForward(s);
    assert RenderRun(names, store, s, events[..1]) == (s1, []);
    var r := RenderTick(names, store, s1, nowMs);
    assert |events| == 2 && events[1] == Tick(nowMs);
    assert RenderRun(names, store, s, events) == (r.0, RenderRun(names, store, s, events[..1]).1 + [r.1]);
    assert [] + [r.1] == [r.1];
    var u := Issued(UpdateTexture(names, store, NextIndex(|names|, s.index)));
    assert u + [] == u;
    assert r.0 == s1.(index := NextIndex(|names|, s.index), stepForward := false);
  }

  // ---------------------------------------------------------------------------
  // The upload format for one- and two-channel records

  lemma NarrowArea(w: int, h: int, c: int)
    requires w > 0 && h > 0 && (c == 1 || c == 2)
    ensures w * h * 3 > w * h * c
  {
    var area := w * h;
    assert area > 0;
  }

  /**
    A well-shaped record with one or two channels is uploaded as RGB, so GL
    reads three bytes per pixel from a buffer that holds one or two.
   */
  lemma NarrowRecordOverRead(names: seq<string>, store: Store, index: nat)
    requires |names| == 0 || index < |names|
    requires CurrentRecord(names, store, index).Some?
    requires var img := CurrentRecord(names, store, index).value;
      IsValid(img) && WellShaped(img) && (img.channels == 1 || img.channels == 2)
    ensures UpdateTexture(names, store, index).Some?
    ensures ReadSize(UpdateTexture(names, store, index).value) > |UpdateTexture(names, store, index).value.data|
  {
    var img := CurrentRecord(names, store, index).value;
    var u := UpdateTexture(names, store, index).value;
    assert u == Upload(Rgb, img.width, img.height, img.data, DefaultUnpackAlignment);
    NarrowArea(img.width, img.height, img.channels);
    ReadSizeOfRows(u);
    AreaTimesChannels(img.width, img.height, 3);
  }

  /** A one-pixel greyscale PNG, whatever its name: the stored record has one byte, the upload reads three. */
  lemma GreyPixelOverRead(name: string)
    ensures var img := FromDecoded(Decoded(1, 1, 1, [0]));
      var store := Assign(NumericLess, [], name, img);
      UpdateTexture([name], store, 0) == Some(Upload(Rgb, 1, 1, [0], DefaultUnpackAlignment))
      && ReadSize(UpdateTexture([name], store, 0).value) == 3
  {
    var img := FromDecoded(Decoded(1, 1, 1, [0]));
    assert img == ImageData(1, 1, 1, [0]);
    SoleRecordUpload(name, img);
  }

  /**
    A two-pixel-high column of one RGB pixel, whatever its name: each row is
    three bytes, GL pads rows to four, so the second row is read from byte 4
    and the upload reads seven bytes of a six-byte buffer.
   */
  lemma RgbColumnOverRead(name: string)
    ensures var img := FromDecoded(Decoded(1, 2, 3, [0, 0, 0, 0, 0, 0]));
      var store := Assign(NumericLess, [], name, img);
      UpdateTexture([name], store, 0) == Some(Upload(Rgb, 1, 2, [0, 0, 0, 0, 0, 0], DefaultUnpackAlignment))
      && ReadSize(UpdateTexture([name], store, 0).value) == 7
  {
    var img := FromDecoded(Decoded(1, 2, 3, [0, 0, 0, 0, 0, 0]));
    assert img == ImageData(1, 2, 3, [0, 0, 0, 0, 0, 0]);
    SoleRecordUpload(name, img);
    assert RowStride(3, DefaultUnpackAlignment) == 4;
  }

  /** The upload issued for the only record of a map, behind a name list holding its name. */
  lemma SoleRecordUpload(name: string, img: ImageData)
    requires IsValid(img)
    ensures UpdateTexture([name], Assign(NumericLess, [], name, img), 0) ==
      Some(Upload(if img.channels == 4 then Rgba else Rgb, img.width, img.height, img.data, DefaultUnpackAlignment))
  {
    SoleRecordIsCurrent(name, img);
  }

  /**
    The upload with the channel switch of the compute renderer: luminance
    for one channel, RGB for three, RGBA for four, and no upload otherwise;
    issued after `glPixelStorei(GL_UNPACK_ALIGNMENT, 1)`, so GL takes the
    rows as packed, as `stbi_load` lays them out.
   */
  function UpdateTextureIntended(names: seq<string>, store: Store, index: nat): (r: Option<Upload>)
    requires |names| == 0 || index < |names|
    ensures r.Some? <==> var rec := CurrentRecord(names, store, index);
      rec.Some? && IsValid(rec.value) && FormatFor(rec.value.channels).Some?
    ensures r.Some? ==> var img := CurrentRecord(names, store, index).value;
      && r.value.width == img.width && r.value.height == img.height && r.value.data == img.data
      && BytesPerPixel(r.value.format) == img.channels
      && r.value.rowAlignment == PackedAlignment
  {
    match CurrentRecord(names, store, index)
    case None => None
    case Some(img) =>
      if IsValid(img) then
        match FormatFor(img.channels)
        case Some(f) => Some(Upload(f, img.width, img.height, img.data, PackedAlignment))
        case None => None
      else None
  }

  /** Over a map of well-shaped records, the corrected upload reads its buffer exactly to the end and no further. */
  lemma IntendedUploadInBounds(names: seq<string>, store: Store, index: nat)
    requires |names| == 0 || index < |names|
    requires AllWellShaped(store)
    ensures UpdateTextureIntended(names, store, index).Some? ==>
      && InBounds(UpdateTextureIntended(names, store, index).value)
      && ReadSize(UpdateTextureIntended(names, store, index).value) == |UpdateTextureIntended(names, store, index).value.data|
  {
    if |names| > 0 {
      FindWellShaped(NumericLess, store, names[index]);
      var rec := CurrentRecord(names, store, index);
      if UpdateTextureIntended(names, store, index).Some? {
        FormatForReadsWholeBuffer(rec.value, PackedAlignment);
      }
    }
  }

  /**
    The two agree on every four- and three-channel record, except that the
    corrected one declares its rows packed.
   */
  lemma IntendedAgreesOnColour(names: seq<string>, store: Store, index: nat)
    requires |names| == 0 || index < |names|
    requires var rec := CurrentRecord(names, store, index);
      rec.Some? ==> rec.value.channels == 3 || rec.value.channels == 4
    ensures UpdateTextureIntended(names, store, index).Some? <==> UpdateTexture(names, store, index).Some?
    ensures UpdateTexture(names, store, index).Some? ==>
      UpdateTextureIntended(names, store, index).value == UpdateTexture(names, store, index).value.(rowAlignment := PackedAlignment)
  {
  }
}
