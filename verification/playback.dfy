/**
  What the two renderers (render/Renderer.cpp and computeRenderer/Renderer.cpp)
  share: the playback record, the keyboard controls, the wrap-around of the
  frame index, and the texture uploads a frame change issues.

  The renderer takes a snapshot of the image names when it is built and
  looks each name up again whenever it uploads, so the scene is the pair
  (names, store). Time is a millisecond count handed to each tick.
 */
module Playback {
  import opened Wrappers
  import opened Orders
  import opened NumericOrder
  import opened Images
  import opened ImageStore

  /** The frame interval of both loops: 33 ms, about 30 frames a second. */
  const FrameIntervalMs: int := 33

  /**
    `currentImageIndex`, the pause flag, the two pending single-step
    requests, and the time point of the last time-based advance.
   */
  datatype PlaybackState = PlaybackState(
    index: nat,
    paused: bool,
    stepForward: bool,
    stepBackward: bool,
    lastAdvanceMs: int)

  /** The index addresses a name whenever there is one, and is 0 otherwise. */
  predicate Valid(n: nat, s: PlaybackState) {
    if n == 0 then s.index == 0 else s.index < n
  }

  /** The constructor: first image, playing, no step pending; the timer starts at `startMs`. */
  function Initial(startMs: int): (s: PlaybackState)
    ensures forall n: nat :: Valid(n, s)
    ensures !s.paused && !s.stepForward && !s.stepBackward
    ensures s.lastAdvanceMs == startMs
  {
    PlaybackState(0, false, false, false, startMs)
  }

  // ---------------------------------------------------------------------------
  // Controls

  /** `togglePause`. */
  function TogglePause(s: PlaybackState): (r: PlaybackState)
    ensures r.paused != s.paused
    ensures r.index == s.index && r.lastAdvanceMs == s.lastAdvanceMs
    ensures r.stepForward == s.stepForward && r.stepBackward == s.stepBackward
  {
    s.(paused := !s.paused)
  }

  /** `stepForward`: a request is only recorded while paused. */
  function RequestStepForward(s: PlaybackState): (r: PlaybackState)
    ensures !s.paused ==> r == s
    ensures s.paused ==> r.stepForward
    ensures r.index == s.index && r.paused == s.paused && r.lastAdvanceMs == s.lastAdvanceMs
    ensures r.stepBackward == s.stepBackward
  {
    if s.paused then s.(stepForward := true) else s
  }

  /** `stepBackward`: a request is only recorded while paused. */
  function RequestStepBackward(s: PlaybackState): (r: PlaybackState)
    ensures !s.paused ==> r == s
    ensures s.paused ==> r.stepBackward
    ensures r.index == s.index && r.paused == s.paused && r.lastAdvanceMs == s.lastAdvanceMs
    ensures r.stepForward == s.stepForward
  {
    if s.paused then s.(stepBackward := true) else s
  }

  /** Pausing twice restores the state exactly. */
  lemma TogglePauseInvolution(s: PlaybackState)
    ensures TogglePause(TogglePause(s)) == s
  {
  }

  /** Step requests are idempotent: a second key press before the tick changes nothing. */
  lemma StepRequestsIdempotent(s: PlaybackState)
    ensures RequestStepForward(RequestStepForward(s)) == RequestStepForward(s)
    ensures RequestStepBackward(RequestStepBackward(s)) == RequestStepBackward(s)
  {
  }

  /** None of the controls moves the index, so each keeps the state valid. */
  lemma ControlsKeepValid(n: nat, s: PlaybackState)
    requires Valid(n, s)
    ensures Valid(n, TogglePause(s))
    ensures Valid(n, RequestStepForward(s)) && Valid(n, RequestStepBackward(s))
  {
  }

  // ---------------------------------------------------------------------------
  // Frame index

  /** The index `nextFrame` moves to over `n` names; with no names it does nothing. */
  function NextIndex(n: nat, i: nat): (r: nat)
    ensures n == 0 ==> r == i
    ensures n > 0 ==> r < n
    ensures n > 0 && i + 1 < n ==> r == i + 1
    ensures n > 0 && i + 1 == n ==> r == 0
  {
    if n == 0 then i else (i + 1) % n
  }

  /** The index `previousFrame` moves to: 0 wraps to the last name, anything else decrements. */
  function PrevIndex(n: nat, i: nat): (r: nat)
    ensures n == 0 ==> r == i
    ensures n > 0 && i < n ==> r < n
  {
    if n == 0 then i else if i == 0 then n - 1 else i - 1
  }

  /** Going back undoes going forward, and going forward undoes going back. */
  lemma PrevUndoesNext(n: nat, i: nat)
    requires i < n
    ensures PrevIndex(n, NextIndex(n, i)) == i
    ensures NextIndex(n, PrevIndex(n, i)) == i
  {
  }

  /** Going back is a decrement modulo `n` (Dafny's `%` never returns a negative value). */
  lemma PrevIsDecrementModulo(n: nat, i: nat)
    requires i < n
    ensures PrevIndex(n, i) == (i - 1) % n
  {
  }

  /** `k` calls of `nextFrame`. */
  function Advance(n: nat, i: nat, k: nat): nat
    decreases k
  {
    if k == 0 then i else NextIndex(n, Advance(n, i, k - 1))
  }

  lemma MultipleAtLeast(a: int, n: int)
    requires a >= 1 && n > 0
    ensures a * n >= n
  {
  }

  /** Quotient and remainder are unique. */
  lemma ModUnique(x: int, n: int, q: int, r: int)
    requires n > 0 && 0 <= r < n && x == q * n + r
    ensures x % n == r
  {
    var q', r' := x / n, x % n;
    assert (q - q') * n == r' - r;
    if q > q' {
      MultipleAtLeast(q - q', n);
    } else if q < q' {
      MultipleAtLeast(q' - q, n);
    }
  }

  /** `k` advances over `n` names land on `(i + k) mod n`. */
  lemma {:induction false} AdvanceIsModular(n: nat, i: nat, k: nat)
    requires i < n
    ensures Advance(n, i, k) == (i + k) % n
  {
    if k > 0 {
      assert Advance(n, i, k - 1) == (i + k - 1) % n by {
        AdvanceIsModular(n, i, k - 1);
      }
      NextOfRemainder(n, i + k - 1);
    }
  }

  /** One advance from the remainder of `x` is the remainder of `x + 1`. */
  lemma NextOfRemainder(n: nat, x: nat)
    requires n > 0
    ensures NextIndex(n, x % n) == (x + 1) % n
  {
    var q, j := x / n, x % n;
    assert x == q * n + j;
    if j + 1 < n {
      ModUnique(x + 1, n, q, j + 1);
    } else {
      assert x + 1 == (q + 1) * n + 0;
      ModUnique(x + 1, n, q + 1, 0);
    }
  }

  /** One more advance after `k` of them. */
  lemma NextOfModular(n: nat, i: nat, k: nat)
    requires i < n
    ensures NextIndex(n, (i + k) % n) == (i + k + 1) % n
  {
    AdvanceIsModular(n, i, k);
    AdvanceIsModular(n, i, k + 1);
  }

  /** `n` advances over `n` names come back to where they started. */
  lemma FullCycleReturns(n: nat, i: nat)
    requires i < n
    ensures Advance(n, i, n) == i
  {
    AdvanceIsModular(n, i, n);
    ModUnique(i + n, n, 1, i);
  }

  // ---------------------------------------------------------------------------
  // Texture uploads

  datatype PixelFormat = Luminance | Rgb | Rgba

  /** How many bytes per pixel GL reads for a format with `GL_UNSIGNED_BYTE`. */
  function BytesPerPixel(f: PixelFormat): (b: nat)
    ensures 1 <= b <= 4
  {
    match f
    case Luminance => 1
    case Rgb => 3
    case Rgba => 4
  }

  /**
    A `glTexImage2D` call with client data: format, dimensions, the buffer
    handed over, and the `GL_UNPACK_ALIGNMENT` in force when it is made.
   */
  datatype Upload = Upload(format: PixelFormat, width: int, height: int, data: seq<byte>, rowAlignment: nat)

  /** The initial `GL_UNPACK_ALIGNMENT`; neither renderer ever changes it. */
  const DefaultUnpackAlignment: nat := 4

  /** The alignment of tightly packed rows, as `stbi_load` lays them out. */
  const PackedAlignment: nat := 1

  /**
    The distance GL assumes between the starts of two rows of `rowBytes`
    bytes: the row rounded up to a multiple of the unpack alignment.
   */
  function RowStride(rowBytes: nat, alignment: nat): (k: nat)
    ensures k >= rowBytes
    ensures k == rowBytes <==> alignment <= 1 || rowBytes % alignment == 0
    ensures alignment > 1 ==> k % alignment == 0 && k - rowBytes < alignment
  {
    if alignment <= 1 || rowBytes % alignment == 0 then rowBytes
    else
      var k := rowBytes + (alignment - rowBytes % alignment);
      assert k % alignment == 0 by {
        ModUnique(k, alignment, rowBytes / alignment + 1, 0);
      }
      k
  }

  /**
    How many bytes GL reads from the buffer of an upload: every row but the
    last at the aligned stride, then one whole row.
   */
  function ReadSize(u: Upload): int {
    if u.width <= 0 || u.height <= 0 then 0
    else
      var row := u.width * BytesPerPixel(u.format);
      (u.height - 1) * RowStride(row, u.rowAlignment) + row
  }

  /** The upload reads nothing past the end of its buffer. */
  predicate InBounds(u: Upload) {
    ReadSize(u) <= |u.data|
  }

  /** The channel switch of the compute renderer: 1, 3 and 4 channels have a format, nothing else does. */
  function FormatFor(channels: int): (f: Option<PixelFormat>)
    ensures f.Some? <==> channels == 1 || channels == 3 || channels == 4
    ensures f.Some? ==> BytesPerPixel(f.value) == channels
  {
    if channels == 1 then Some(Luminance)
    else if channels == 3 then Some(Rgb)
    else if channels == 4 then Some(Rgba)
    else None
  }

  lemma MulMonotone(a: int, b: int, c: int)
    requires a >= 0 && b <= c
    ensures a * b <= a * c
  {
  }

  lemma MulStrict(a: int, b: int, c: int)
    requires a > 0 && b < c
    ensures a * b < a * c
  {
  }

  /** An upload of `w` by `h` pixels of `bpp` bytes reads at least `w * h * bpp` bytes, and exactly that many iff its rows need no padding. */
  lemma ReadSizeOfRows(u: Upload)
    requires u.width > 0 && u.height > 0
    ensures var row := u.width * BytesPerPixel(u.format);
      && ReadSize(u) >= u.height * row
      && (ReadSize(u) == u.height * row <==> u.height == 1 || u.rowAlignment <= 1 || row % u.rowAlignment == 0)
  {
    var row := u.width * BytesPerPixel(u.format);
    var k := RowStride(row, u.rowAlignment);
    assert ReadSize(u) == (u.height - 1) * k + row;
    assert u.height * row == (u.height - 1) * row + row;
    MulMonotone(u.height - 1, row, k);
    if u.height > 1 && k != row {
      MulStrict(u.height - 1, row, k);
    }
  }

  lemma AreaTimesChannels(w: int, h: int, c: int)
    ensures w * h * c == h * (w * c)
  {
  }

  /**
    A well-shaped record uploaded with the format `FormatFor` picks stays
    inside its buffer exactly when its rows need no padding at the upload's
    alignment (one row, packed rows, or a row length that is a multiple of
    the alignment), and is then read exactly to its end; otherwise GL reads
    past the end.
   */
  lemma FormatForReadsWholeBuffer(img: ImageData, alignment: nat)
    requires WellShaped(img) && IsValid(img) && FormatFor(img.channels).Some?
    ensures var u := Upload(FormatFor(img.channels).value, img.width, img.height, img.data, alignment);
      && (InBounds(u) <==> img.height == 1 || alignment <= 1 || (img.width * img.channels) % alignment == 0)
      && (InBounds(u) ==> ReadSize(u) == |img.data|)
  {
    var u := Upload(FormatFor(img.channels).value, img.width, img.height, img.data, alignment);
    ReadSizeOfRows(u);
    AreaTimesChannels(img.width, img.height, img.channels);
  }

  /**
    The record `updateTexture` looks at: `getImage(imageNames[index])`,
    or nothing when the name list is empty.
   */
  function CurrentRecord(names: seq<string>, store: Store, index: nat): (r: Option<ImageData>)
    requires |names| == 0 || index < |names|
    ensures |names| == 0 ==> r.None?
    ensures r.Some? ==> exists i :: 0 <= i < |store| && Equivalent(NumericLess, store[i].name, names[index]) && store[i].image == r.value
  {
    if |names| == 0 then None else Find(NumericLess, store, names[index])
  }

  /**
    The renderers take their name list from `getImageNames` and look each
    name up again with `getImage`: over a sorted map, the `i`-th listed name
    finds the `i`-th record.
   */
  lemma ListedNameFindsItsRecord(store: Store, i: nat)
    requires Sorted(NumericLess, store) && TransitiveOn(NumericLess, KeySet(store))
    requires i < |store|
    ensures CurrentRecord(Names(store), store, i) == Some(store[i].image)
  {
    var k := store[i].name;
    NumericKeyOrder();
    assert k in KeySet(store);
    assert KeySet(store) + {k} == KeySet(store);
    FindExact(NumericLess, store, k);
    assert Equivalent(NumericLess, store[i].name, k);
  }

  /** A map holding one record, behind a name list holding its name: that record is current. */
  lemma SoleRecordIsCurrent(name: string, img: ImageData)
    ensures CurrentRecord([name], Assign(NumericLess, [], name, img), 0) == Some(img)
  {
    NumericKeyOrder();
    FindAfterAssign(NumericLess, [], name, img);
  }

  /** Which single-step request a tick consumed. */
  datatype StepTaken = NoStep | Forward | Backward

  /**
    The step handling at the head of both loops: at most one request is
    consumed, forward before backward, and only the consumed flag is cleared.
   */
  function ConsumeStep(n: nat, s: PlaybackState): (r: (PlaybackState, StepTaken))
    ensures r.1 == Forward <==> s.stepForward
    ensures r.1 == Backward <==> !s.stepForward && s.stepBackward
    ensures !r.0.stepForward
    ensures r.0.stepBackward == (s.stepForward && s.stepBackward)
    ensures r.0.paused == s.paused && r.0.lastAdvanceMs == s.lastAdvanceMs
    ensures r.0.index == match r.1
      case NoStep => s.index
      case Forward => NextIndex(n, s.index)
      case Backward => PrevIndex(n, s.index)
  {
    if s.stepForward then (s.(index := NextIndex(n, s.index), stepForward := false), Forward)
    else if s.stepBackward then (s.(index := PrevIndex(n, s.index), stepBackward := false), Backward)
    else (s, NoStep)
  }

  /** Consuming a step keeps a valid state valid. */
  lemma ConsumeStepKeepsValid(n: nat, s: PlaybackState)
    requires Valid(n, s)
    ensures Valid(n, ConsumeStep(n, s).0)
  {
  }

  /** A forward step taken while a backward one is pending leaves the backward one for the next tick. */
  lemma BackwardSurvivesForward(n: nat, s: PlaybackState)
    requires s.stepForward && s.stepBackward
    ensures var (t, step) := ConsumeStep(n, s);
      step == Forward && t.stepBackward && ConsumeStep(n, t).1 == Backward
  {
  }

  /** The time-based advance condition shared by both loops. */
  predicate DueForAdvance(s: PlaybackState, nowMs: int) {
    !s.paused && nowMs - s.lastAdvanceMs >= FrameIntervalMs
  }

  // ---------------------------------------------------------------------------
  // Events

  /**
    What reaches a renderer, one at a time: the three keys of the window
    procedure, or one pass of the render loop at a clock reading.
   */
  datatype Event = PauseKey | ForwardKey | BackwardKey | Tick(nowMs: int)

  /** A key event applied to the playback record. */
  function Control(s: PlaybackState, e: Event): (r: PlaybackState)
    requires !e.Tick?
    ensures r.index == s.index && r.lastAdvanceMs == s.lastAdvanceMs
  {
    match e
    case PauseKey => TogglePause(s)
    case ForwardKey => RequestStepForward(s)
    case BackwardKey => RequestStepBackward(s)
  }

  /** How many passes of the loop a stream of events holds. */
  function TickCount(events: seq<Event>): (k: nat)
    ensures k <= |events|
    decreases |events|
  {
    if |events| == 0 then 0
    else TickCount(events[..|events| - 1]) + (if events[|events| - 1].Tick? then 1 else 0)
  }

  /** A stream holds no pass exactly when none of its events is a `Tick`. */
  lemma {:induction false} NoTickCountedIffNoTick(events: seq<Event>)
    ensures TickCount(events) == 0 <==> forall i :: 0 <= i < |events| ==> !events[i].Tick?
    decreases |events|
  {
    if |events| > 0 {
      var init := events[..|events| - 1];
      NoTickCountedIffNoTick(init);
      assert forall i :: 0 <= i < |init| ==> init[i] == events[i];
    }
  }

  /** Wraps an upload that may not have happened as the sequence of uploads issued. */
  function Issued(u: Option<Upload>): (r: seq<Upload>)
    ensures |r| <= 1
    ensures u.Some? ==> r == [u.value]
    ensures u.None? ==> r == []
  {
    match u
    case Some(v) => [v]
    case None => []
  }

  /**
    The uploads of one pass: the one `nextFrame` or `previousFrame` issues
    when a step is taken, then the one the timer's `nextFrame` issues.
    `stepUpload` and `advanceUpload` are what `updateTexture` yields at the
    index each move lands on.
   */
  function PassUploads(stepped: bool, stepUpload: Option<Upload>, advanced: bool, advanceUpload: Option<Upload>): (r: seq<Upload>)
    ensures |r| <= 2
    ensures !stepped && !advanced ==> r == []
    ensures forall k :: 0 <= k < |r| ==>
      (stepped && Some(r[k]) == stepUpload) || (advanced && Some(r[k]) == advanceUpload)
    ensures advanced && advanceUpload.Some? ==> |r| > 0 && r[|r| - 1] == advanceUpload.value
    ensures stepped && !advanced && stepUpload.Some? ==> r == [stepUpload.value]
    ensures |r| == (if stepped && stepUpload.Some? then 1 else 0) + (if advanced && advanceUpload.Some? then 1 else 0)
    ensures stepped && stepUpload.Some? ==> |r| > 0 && r[0] == stepUpload.value
  {
    (if stepped then Issued(stepUpload) else []) + (if advanced then Issued(advanceUpload) else [])
  }
}
