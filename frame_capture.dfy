/** The frame-burst state of `CameraPreview` as a value: the fields
    `framesCount`, `isCapturingFrames`, `capturedFramesCount` and
    `capturedFramesList`. `startCapturingFrames` is `Start`, which returns the
    reset state; `captureFrame` and the tick gate are `CaptureFrame` and
    `Tick`, which return the new state with the listener calls they make. The
    class in module Camera is specified by these functions. */
module FrameCapture {
  import opened Wrappers
  import opened KotlinInt

  /** A bitmap read from the texture view; its pixels are not modelled. */
  datatype Frame = Frame(id: nat)

  /** A call on the registered `FrameCaptureListener`. */
  datatype Event = FrameCaptured(frame: Frame) | FramesCaptured(frames: seq<Frame>)

  datatype Burst = Burst(framesCount: Int32, capturing: bool, capturedCount: Int32, captured: seq<Frame>)

  /** A burst state together with the listener calls that produced it. */
  datatype Step = Step(burst: Burst, events: seq<Event>)

  /** The field initialisers: nothing requested, not capturing. */
  const Initial := Burst(0, false, 0, [])

  /** What every reachable state satisfies: the list never outgrows the
      counter, the counter stays within the request when the request is not
      negative, and a positive burst that is still running has room left. */
  predicate Inv(b: Burst) {
    && 0 <= b.capturedCount
    && |b.captured| <= b.capturedCount as int
    && (b.framesCount >= 0 ==> b.capturedCount <= b.framesCount)
    && (b.capturing && b.framesCount > 0 ==> b.capturedCount < b.framesCount)
  }

  /** `startCapturingFrames(count)`: every field is overwritten, so the old
      state, a running burst included, is discarded. `count` is not checked. */
  function Start(count: Int32): (r: Burst)
    ensures Inv(r)
    ensures r.framesCount == count && r.capturing && r.capturedCount == 0 && r.captured == []
  {
    Burst(count, true, 0, [])
  }

  /** `captureFrame()`, where `bitmap` is what `textureView.bitmap` returned. */
  function CaptureFrame(b: Burst, bitmap: Option<Frame>): (r: Step)
    ensures Inv(b) ==> Inv(r.burst)
    ensures r.burst.framesCount == b.framesCount
    ensures r.burst.capturing ==> b.capturing
    ensures b.captured <= r.burst.captured && |r.burst.captured| <= |b.captured| + 1
  {
    if b.capturedCount < b.framesCount then
      var list := if bitmap.Some? then b.captured + [bitmap.value] else b.captured;
      var count := b.capturedCount + 1;
      var perFrame := if bitmap.Some? then [FrameCaptured(bitmap.value)] else [];
      if count == b.framesCount then
        Step(Burst(b.framesCount, false, count, list), perFrame + [FramesCaptured(list)])
      else
        Step(Burst(b.framesCount, b.capturing, count, list), perFrame)
    else
      Step(b, [])
  }

  /** A surface-update tick: `captureFrame` runs only while capturing. */
  function Tick(b: Burst, bitmap: Option<Frame>): (r: Step)
    ensures !b.capturing ==> r == Step(b, [])
    ensures Inv(b) ==> Inv(r.burst)
    ensures r.burst.framesCount == b.framesCount
    ensures r.burst.capturing ==> b.capturing
    ensures b.captured <= r.burst.captured
  {
    if b.capturing then CaptureFrame(b, bitmap) else Step(b, [])
  }

  /** A sequence of ticks, the i-th reading `bitmaps[i]`; the events of all
      ticks in order. */
  function Run(b: Burst, bitmaps: seq<Option<Frame>>): Step
    decreases |bitmaps|
  {
    if |bitmaps| == 0 then Step(b, [])
    else
      var before := Run(b, bitmaps[..|bitmaps| - 1]);
      var last := Tick(before.burst, bitmaps[|bitmaps| - 1]);
      Step(last.burst, before.events + last.events)
  }

  /** The frames handed to `onFrameCaptured`, in order. */
  function Reported(events: seq<Event>): seq<Frame> {
    if |events| == 0 then []
    else Reported(events[..|events| - 1]) +
         (if events[|events| - 1].FrameCaptured? then [events[|events| - 1].frame] else [])
  }

  /** How many times `onFramesCaptured` was called. */
  function Batches(events: seq<Event>): nat {
    if |events| == 0 then 0
    else Batches(events[..|events| - 1]) + (if events[|events| - 1].FramesCaptured? then 1 else 0)
  }

  lemma {:induction false} ReportedAppend(a: seq<Event>, c: seq<Event>)
    ensures Reported(a + c) == Reported(a) + Reported(c)
    ensures Batches(a + c) == Batches(a) + Batches(c)
    decreases |c|
  {
    if |c| > 0 {
      assert (a + c)[..|a + c| - 1] == a + c[..|c| - 1];
      ReportedAppend(a, c[..|c| - 1]);
    } else {
      assert a + c == a;
    }
  }

  lemma ReportedSingle(e: Event)
    ensures Reported([e]) == (if e.FrameCaptured? then [e.frame] else [])
    ensures Batches([e]) == (if e.FramesCaptured? then 1 else 0)
  {
    assert [e][..0] == [];
  }

  lemma InitialIsValid()
    ensures Inv(Initial) && !Initial.capturing
  {
  }

  /** An effective call spends exactly one slot whether or not the bitmap was
      null, and stores a copy only of a bitmap. */
  lemma CaptureFrameSpendsSlot(b: Burst, bitmap: Option<Frame>)
    requires b.capturedCount < b.framesCount
    ensures var s := CaptureFrame(b, bitmap);
      && s.burst.framesCount == b.framesCount
      && s.burst.capturedCount as int == b.capturedCount as int + 1
      && s.burst.captured == b.captured + (if bitmap.Some? then [bitmap.value] else [])
  {
  }

  /** An effective call reports the frame to `onFrameCaptured` only when a
      bitmap was read. */
  lemma CaptureFrameReports(b: Burst, bitmap: Option<Frame>)
    requires b.capturedCount < b.framesCount
    ensures Reported(CaptureFrame(b, bitmap).events) == (if bitmap.Some? then [bitmap.value] else [])
  {
    var s := CaptureFrame(b, bitmap);
    var perFrame: seq<Event> := if bitmap.Some? then [FrameCaptured(bitmap.value)] else [];
    if bitmap.Some? {
      ReportedSingle(FrameCaptured(bitmap.value));
    }
    if s.burst.capturedCount == b.framesCount {
      var batch := [FramesCaptured(s.burst.captured)];
      assert s.events == perFrame + batch;
      ReportedSingle(batch[0]);
      ReportedAppend(perFrame, batch);
    }
  }

  /** An effective call delivers the batch, as its last event and exactly
      once, and stops capturing, exactly when the counter reaches the request;
      otherwise it delivers no batch and leaves the flag alone. */
  lemma CaptureFrameCompletes(b: Burst, bitmap: Option<Frame>)
    requires b.capturedCount < b.framesCount
    ensures var s := CaptureFrame(b, bitmap);
      && (s.burst.capturedCount == b.framesCount <==> Batches(s.events) == 1)
      && (s.burst.capturedCount == b.framesCount ==>
            !s.burst.capturing && s.events[|s.events| - 1] == FramesCaptured(s.burst.captured))
      && (s.burst.capturedCount != b.framesCount ==> s.burst.capturing == b.capturing && Batches(s.events) == 0)
  {
    var s := CaptureFrame(b, bitmap);
    var perFrame: seq<Event> := if bitmap.Some? then [FrameCaptured(bitmap.value)] else [];
    if bitmap.Some? {
      ReportedSingle(FrameCaptured(bitmap.value));
    }
    if s.burst.capturedCount == b.framesCount {
      var batch := [FramesCaptured(s.burst.captured)];
      assert s.events == perFrame + batch;
      ReportedSingle(batch[0]);
      ReportedAppend(perFrame, batch);
    }
  }

  /** Once the request is used up, `captureFrame` changes nothing and calls
      no listener method. */
  lemma CaptureFrameWhenDone(b: Burst, bitmap: Option<Frame>)
    requires b.capturedCount >= b.framesCount
    ensures CaptureFrame(b, bitmap) == Step(b, [])
  {
  }

  /** After the burst has completed, further ticks change nothing. */
  lemma {:induction false} RunWhenIdle(b: Burst, bitmaps: seq<Option<Frame>>)
    requires !b.capturing
    ensures Run(b, bitmaps) == Step(b, [])
    decreases |bitmaps|
  {
    if |bitmaps| > 0 {
      RunWhenIdle(b, bitmaps[..|bitmaps| - 1]);
    }
  }

  /** Any ticks after `startCapturingFrames(count)` with `count > 0`: the state
      stays valid; the frames reported one by one are exactly the stored list;
      while the burst runs no batch has been delivered; once it has stopped the
      counter equals the request and exactly one batch, carrying the stored
      list, has been delivered as the last event. */
  lemma {:induction false} RunFromStart(count: Int32, bitmaps: seq<Option<Frame>>)
    requires count > 0
    ensures var s := Run(Start(count), bitmaps);
      && Inv(s.burst)
      && s.burst.framesCount == count
      && Reported(s.events) == s.burst.captured
      && (s.burst.capturing ==> s.burst.capturedCount < count && Batches(s.events) == 0)
      && (!s.burst.capturing ==>
            && s.burst.capturedCount == count
            && Batches(s.events) == 1
            && s.events[|s.events| - 1] == FramesCaptured(s.burst.captured))
    decreases |bitmaps|
  {
    if |bitmaps| > 0 {
      var prefix := bitmaps[..|bitmaps| - 1];
      var bitmap := bitmaps[|bitmaps| - 1];
      RunFromStart(count, prefix);
      var before := Run(Start(count), prefix);
      var last := Tick(before.burst, bitmap);
      ReportedAppend(before.events, last.events);
      if before.burst.capturing {
        CaptureFrameSpendsSlot(before.burst, bitmap);
        CaptureFrameReports(before.burst, bitmap);
        CaptureFrameCompletes(before.burst, bitmap);
        if !last.burst.capturing {
          assert (before.events + last.events)[|before.events + last.events| - 1] == last.events[|last.events| - 1];
        }
      } else {
        assert before.events + last.events == before.events;
      }
    }
  }

  /** Ticks that each read a bitmap. */
  function Available(frames: seq<Frame>): seq<Option<Frame>> {
    seq(|frames|, i requires 0 <= i < |frames| => Some(frames[i]))
  }

  /** One `onFrameCaptured` per frame, in order. */
  function PerFrame(frames: seq<Frame>): seq<Event> {
    seq(|frames|, i requires 0 <= i < |frames| => FrameCaptured(frames[i]))
  }

  lemma {:induction false} RunAvailablePrefix(count: Int32, frames: seq<Frame>, k: nat)
    requires count > 0 && |frames| == count as int && k < |frames|
    ensures Run(Start(count), Available(frames[..k])) == Step(Burst(count, true, k as Int32, frames[..k]), PerFrame(frames[..k]))
    decreases k
  {
    if k > 0 {
      RunAvailablePrefix(count, frames, k - 1);
      assert Available(frames[..k])[..k - 1] == Available(frames[..k - 1]);
      assert frames[..k] == frames[..k - 1] + [frames[k - 1]];
      assert PerFrame(frames[..k]) == PerFrame(frames[..k - 1]) + [FrameCaptured(frames[k - 1])];
    } else {
      assert Available(frames[..0]) == [];
      assert PerFrame(frames[..0]) == [];
    }
  }

  /** `startCapturingFrames(count)` followed by `count` ticks that each read a
      bitmap: `count` calls of `onFrameCaptured` in capture order, then one
      `onFramesCaptured` with all `count` frames, and capturing has stopped. */
  lemma BurstOfAvailableFrames(count: Int32, frames: seq<Frame>)
    requires count > 0 && |frames| == count as int
    ensures Run(Start(count), Available(frames)) ==
            Step(Burst(count, false, count, frames), PerFrame(frames) + [FramesCaptured(frames)])
  {
    var n := |frames|;
    RunAvailablePrefix(count, frames, n - 1);
    assert frames[..n] == frames;
    assert Available(frames)[..n - 1] == Available(frames[..n - 1]);
    assert frames == frames[..n - 1] + [frames[n - 1]];
    assert PerFrame(frames) == PerFrame(frames[..n - 1]) + [FrameCaptured(frames[n - 1])];
  }

  /** A tick after a burst has stopped, however its ticks went, is a no-op. */
  lemma TickAfterBurst(count: Int32, bitmaps: seq<Option<Frame>>, bitmap: Option<Frame>)
    requires count > 0 && !Run(Start(count), bitmaps).burst.capturing
    ensures Run(Start(count), bitmaps + [bitmap]) == Run(Start(count), bitmaps)
  {
    assert (bitmaps + [bitmap])[..|bitmaps|] == bitmaps;
  }

  /** The bitmaps among the reads, in order: what `captureFrame` stores. */
  function Present(bitmaps: seq<Option<Frame>>): seq<Frame> {
    if |bitmaps| == 0 then []
    else Present(bitmaps[..|bitmaps| - 1]) +
         (if bitmaps[|bitmaps| - 1].Some? then [bitmaps[|bitmaps| - 1].value] else [])
  }

  /** What any ticks after `startCapturingFrames(count)`, `count > 0`, leave
      behind, in terms of the reads alone: the first `n = min(count, |bitmaps|)`
      ticks each spend a slot, null or not; the list holds the bitmaps among
      those `n` reads; the burst stops exactly when `count` ticks have run, so
      fewer bitmaps than requested are delivered when some reads were null. */
  lemma {:induction false} RunOutcome(count: Int32, bitmaps: seq<Option<Frame>>)
    requires count > 0
    ensures var n := if |bitmaps| < count as int then |bitmaps| else count as int;
      var b := Run(Start(count), bitmaps).burst;
      && b.framesCount == count
      && b.capturedCount as int == n
      && b.captured == Present(bitmaps[..n])
      && b.capturing == (|bitmaps| < count as int)
    decreases |bitmaps|
  {
    if |bitmaps| > 0 {
      var prefix := bitmaps[..|bitmaps| - 1];
      var bitmap := bitmaps[|bitmaps| - 1];
      RunOutcome(count, prefix);
      var before := Run(Start(count), prefix).burst;
      if |prefix| < count as int {
        CaptureFrameSpendsSlot(before, bitmap);
        CaptureFrameCompletes(before, bitmap);
        assert bitmaps[..|bitmaps|] == bitmaps;
        assert prefix[..|prefix|] == prefix;
      } else {
        assert bitmaps[..count] == prefix[..count];
      }
    } else {
      assert bitmaps[..0] == [];
    }
  }

  /** A null bitmap spends a slot all the same: a one-frame burst whose only
      tick reads no bitmap completes with an empty batch. */
  lemma NullBitmapSpendsSlot()
    ensures Run(Start(1), [None]) == Step(Burst(1, false, 1, []), [FramesCaptured([])])
  {
    var ticks: seq<Option<Frame>> := [None];
    assert ticks[..0] == [];
  }

  /** With `count <= 0` the flag is set and never cleared, and no listener
      method is ever called. */
  lemma {:induction false} NonPositiveCountNeverCompletes(count: Int32, bitmaps: seq<Option<Frame>>)
    requires count <= 0
    ensures Run(Start(count), bitmaps) == Step(Start(count), [])
    decreases |bitmaps|
  {
    if |bitmaps| > 0 {
      NonPositiveCountNeverCompletes(count, bitmaps[..|bitmaps| - 1]);
    }
  }
}
