/** `VideoStreamer` of `birdcctv/streaming.py`: the read/recovery state
    machine, the frame pull loop, the multipart framing of the MJPEG stream
    and the detection summary. The capture factory, the capture, the detector
    model, the JPEG encoder and the clock are oracles: everything they answer
    during a call is a field of the environment handed to that call. */
module Streaming {
  import opened Outcomes
  import opened Images
  import opened Gathering
  import Detector
  import Camera

  /** A failed read with the failure count above this gives up at once. */
  const MaxFailures: nat := 5

  /** A capture object as the streamer sees it: `reportsOpen` is what its
      `isOpened()` answers, `None` when it has no such method. */
  datatype Handle = Handle(reportsOpen: Option<bool>)

  /** `_is_open`: a capture without `isOpened` counts as open; otherwise its
      answer decides. */
  function IsOpen(h: Handle): (open: bool)
    ensures h.reportsOpen.None? ==> open
    ensures h.reportsOpen.Some? ==> (open <==> h.reportsOpen.value)
  {
    h.reportsOpen.GetOr(true)
  }

  /** The streamer's view of one of the camera adapters. */
  function HandleOf(c: Camera.Capture): (h: Handle)
    ensures h.reportsOpen.Some?
    ensures IsOpen(h) <==> c.IsOpened()
  {
    Handle(Some(c.IsOpened()))
  }

  /** What calling the capture factory gives: it raised (logged by
      `_open_capture`) or it returned a capture. */
  datatype Opening = FactoryRaised | Returned(handle: Handle)

  /** The factory as `create_capture` behaves: a raised construction or a
      returned adapter. */
  function OpeningOf(r: Result<Camera.Capture>): (o: Opening)
    ensures o.FactoryRaised? <==> r.Raised?
    ensures o.Returned? ==> (IsOpen(o.handle) <==> r.value.IsOpened())
  {
    match r
    case Ok(c) => Returned(HandleOf(c))
    case Raised(_) => FactoryRaised
  }

  /** `_open_capture`: `None` when the factory raised. */
  function OpenCapture(o: Opening): (h: Option<Handle>)
    ensures h.Some? <==> o.Returned?
    ensures h.Some? ==> h.value == o.handle
  {
    match o
    case Returned(handle) => Some(handle)
    case FactoryRaised => None
  }

  /** `capture.read()`: `(True, frame)` or `(False, _)`. */
  datatype DeviceRead = DeviceFrame(frame: Frame) | DeviceFailed

  /** The calls `read` and `release` make on the outside world: the capture
      factory, `capture.read()`, `capture.release()`, `time.sleep` and the
      detector. A call's calls are kept as a multiset: how many of each. */
  datatype Event = FactoryCall | ReadCall | ReleaseCall | Sleep | DetectCall

  /** The fields of a `VideoStreamer`: the detector (or none), the capture (or
      none), the failure counter and the detection snapshot. */
  datatype Streamer = Streamer(
    detector: Option<Detector.BirdDetector>,
    capture: Option<Handle>,
    failures: nat,
    detections: seq<Detector.Detection>,
    lastUpdated: Option<real>)

  /** `VideoStreamer.__init__`: raises unless the factory returns a capture
      that reports open. */
  function New(detector: Option<Detector.BirdDetector>, opening: Opening): (r: Result<Streamer>)
    ensures r.Ok? <==> opening.Returned? && IsOpen(opening.handle)
    ensures r.Ok? ==>
      && r.value.capture == Some(opening.handle)
      && r.value.detector == detector
      && r.value.failures == 0
      && r.value.detections == []
      && r.value.lastUpdated == None
  {
    var capture := OpenCapture(opening);
    if capture.None? || !IsOpen(capture.value) then Raised("Unable to open video source")
    else Ok(Streamer(detector, capture, 0, [], None))
  }

  /** `release()`: closes the capture if it reports open and always forgets it. */
  function Release(s: Streamer): (r: (Streamer, multiset<Event>))
    ensures r.0 == s.(capture := None)
    ensures r.1 == multiset{ReleaseCall} <==> s.capture.Some? && IsOpen(s.capture.value)
    ensures r.1 == multiset{} || r.1 == multiset{ReleaseCall}
  {
    var calls := if s.capture.Some? && IsOpen(s.capture.value) then multiset{ReleaseCall} else multiset{};
    (s.(capture := None), calls)
  }

  /** A second `release()` changes nothing and calls nothing. */
  lemma ReleaseIdempotent(s: Streamer)
    ensures Release(Release(s).0) == (Release(s).0, multiset{})
  {
  }

  /** Everything the outside world answers during one `read()` call: the
      factory when `read` starts without a capture, the first device read, the
      factory during recovery, the retried read, the model's answer for the
      frame, and `time.time()`. Answers a call does not ask for are ignored. */
  datatype ReadEnv = ReadEnv(
    reopen: Opening,
    first: DeviceRead,
    recovery: Opening,
    retry: DeviceRead,
    inference: Detector.Inference,
    now: real)

  /** The result of `read()`: the new state, the returned pair `(frame,
      detections)` and the calls made. */
  datatype Step = Step(state: Streamer, frame: Option<Frame>, detections: seq<Detector.Detection>, calls: multiset<Event>)

  /** What `read` returns for a raw frame: the frame itself and no detections
      without a detector or when detection raises, the annotated frame and its
      detections otherwise. */
  predicate Delivers(detector: Option<Detector.BirdDetector>, raw: Frame, inference: Detector.Inference,
                     frame: Frame, detections: seq<Detector.Detection>)
  {
    if detector.None? then frame == raw && detections == []
    else
      var outcome := Detector.Detect(detector.value, raw, inference);
      if outcome.DetectRaised? then frame == raw && detections == []
      else frame == outcome.frame && detections == outcome.detections
  }

  /** The end of a successful `read`: run the detector if there is one,
      install the snapshot and return the pair. */
  function Publish(s: Streamer, raw: Frame, env: ReadEnv): (r: Step)
    ensures r.frame.Some?
    ensures r.state == s.(detections := r.detections, lastUpdated := Some(env.now))
    ensures r.calls == (if s.detector.Some? then multiset{DetectCall} else multiset{})
    ensures Delivers(s.detector, raw, env.inference, r.frame.value, r.detections)
  {
    var (annotated, detections, calls) :=
      match s.detector
      case None => (raw, [], multiset{})
      case Some(d) =>
        match Detector.Detect(d, raw, env.inference)
        case DetectRaised => (raw, [], multiset{DetectCall})
        case Annotated(a, dets) => (a, dets, multiset{DetectCall});
    Step(s.(detections := detections, lastUpdated := Some(env.now)), Some(annotated), detections, calls)
  }

  /** Whether the factory gives a capture that reports open. */
  predicate Opens(o: Opening) {
    o.Returned? && IsOpen(o.handle)
  }

  /** The snapshot is untouched and nothing is returned. */
  predicate NoFrame(s: Streamer, r: Step) {
    r.frame.None? && r.detections == [] && r.state.detections == s.detections && r.state.lastUpdated == s.lastUpdated
  }

  /** The snapshot holds exactly the returned detections, stamped `now`. */
  predicate Snapshot(r: Step, now: real) {
    r.frame.Some? && r.state.detections == r.detections && r.state.lastUpdated == Some(now)
  }

  /** The recovery path of `read` after a failed read: release, pause, reopen
      once and retry once. */
  function Recover(s: Streamer, env: ReadEnv): (r: Step)
    ensures r.state.capture == OpenCapture(env.recovery)
    ensures r.state.failures == s.failures && r.state.detector == s.detector
    ensures r.frame.Some? <==> Opens(env.recovery) && env.retry.DeviceFrame?
    ensures r.frame.None? ==> NoFrame(s, r)
    ensures r.frame.Some? ==> Snapshot(r, env.now) && Delivers(s.detector, env.retry.frame, env.inference, r.frame.value, r.detections)
  {
    var (released, releaseCalls) := Release(s);
    var reopened := OpenCapture(env.recovery);
    var recovered := released.(capture := reopened);
    var calls := releaseCalls + multiset{Sleep, FactoryCall};
    if reopened.None? || !IsOpen(reopened.value) then Step(recovered, None, [], calls)
    else match env.retry
      case DeviceFailed => Step(recovered, None, [], calls + multiset{ReadCall})
      case DeviceFrame(frame) =>
        var p := Publish(recovered, frame, env);
        p.(calls := calls + multiset{ReadCall} + p.calls)
  }

  /** Recovery releases the capture if it reports open, pauses once, calls
      the factory once, and reads again only from a capture that reports
      open. */
  lemma RecoverCalls(s: Streamer, env: ReadEnv)
    ensures var r := Recover(s, env);
      && r.calls[Sleep] == 1 && r.calls[FactoryCall] == 1
      && r.calls[ReleaseCall] == (if s.capture.Some? && IsOpen(s.capture.value) then 1 else 0)
      && r.calls[ReadCall] == (if Opens(env.recovery) then 1 else 0)
  {
  }

  /** `read` once a capture is in place: read a frame, and recover on a
      failure. */
  function ReadOpen(s: Streamer, env: ReadEnv): (r: Step)
    requires s.capture.Some?
    ensures r.state.detector == s.detector
    ensures r.frame.None? ==> NoFrame(s, r)
    ensures r.frame.Some? ==> Snapshot(r, env.now)
    ensures env.first.DeviceFrame? ==>
      r.frame.Some? && r.state.failures == 0 && r.state.capture == s.capture
      && Delivers(s.detector, env.first.frame, env.inference, r.frame.value, r.detections)
    ensures env.first.DeviceFailed? ==> r.state.failures == s.failures + 1
    ensures env.first.DeviceFailed? && s.failures + 1 > MaxFailures ==>
      r.frame.None? && r.state.capture == s.capture && r.calls == multiset{ReadCall}
    ensures env.first.DeviceFailed? && s.failures + 1 <= MaxFailures ==>
      && r.state.capture == OpenCapture(env.recovery)
      && (r.frame.Some? <==> Opens(env.recovery) && env.retry.DeviceFrame?)
      && (r.frame.Some? ==> Delivers(s.detector, env.retry.frame, env.inference, r.frame.value, r.detections))
  {
    match env.first
    case DeviceFrame(frame) =>
      var p := Publish(s.(failures := 0), frame, env);
      p.(calls := multiset{ReadCall} + p.calls)
    case DeviceFailed =>
      var failed := s.(failures := s.failures + 1);
      if failed.failures > MaxFailures then Step(failed, None, [], multiset{ReadCall})
      else
        var q := Recover(failed, env);
        q.(calls := multiset{ReadCall} + q.calls)
  }

  /** The calls `read` makes once a capture is in place: one read and no factory call
      after a first success; one release (if open), one pause, one factory
      call and one or two reads when recovering. */
  lemma ReadOpenCalls(s: Streamer, env: ReadEnv)
    requires s.capture.Some?
    ensures var r := ReadOpen(s, env);
      && (env.first.DeviceFrame? ==> r.calls[ReadCall] == 1 && r.calls[FactoryCall] == 0 && r.calls[Sleep] == 0)
      && (env.first.DeviceFailed? && s.failures + 1 <= MaxFailures ==>
        && r.calls[Sleep] == 1 && r.calls[FactoryCall] == 1
        && r.calls[ReleaseCall] == (if IsOpen(s.capture.value) then 1 else 0)
        && r.calls[ReadCall] == (if Opens(env.recovery) then 2 else 1))
  {
    match env.first
    case DeviceFrame(frame) =>
      var p := Publish(s.(failures := 0), frame, env);
      assert ReadOpen(s, env).calls == multiset{ReadCall} + p.calls;
    case DeviceFailed =>
      if s.failures + 1 <= MaxFailures {
        RecoveringReadCalls(s, env);
      }
  }

  /** The calls of a read that fails and recovers: the failed read on top of
      the calls of recovery. */
  lemma RecoveringReadCalls(s: Streamer, env: ReadEnv)
    requires s.capture.Some? && env.first.DeviceFailed? && s.failures + 1 <= MaxFailures
    ensures var r := ReadOpen(s, env);
      && r.calls[Sleep] == 1 && r.calls[FactoryCall] == 1
      && r.calls[ReleaseCall] == (if IsOpen(s.capture.value) then 1 else 0)
      && r.calls[ReadCall] == (if Opens(env.recovery) then 2 else 1)
  {
    var failed := s.(failures := s.failures + 1);
    var q := Recover(failed, env);
    RecoverCalls(failed, env);
    assert ReadOpen(s, env).calls == multiset{ReadCall} + q.calls;
    OneMoreRead(q.calls);
  }

  /** Adding a read to a multiset of calls counts one more read and leaves the
      other counts alone. */
  lemma OneMoreRead(m: multiset<Event>)
    ensures (multiset{ReadCall} + m)[ReadCall] == m[ReadCall] + 1
    ensures (multiset{ReadCall} + m)[Sleep] == m[Sleep]
    ensures (multiset{ReadCall} + m)[FactoryCall] == m[FactoryCall]
    ensures (multiset{ReadCall} + m)[ReleaseCall] == m[ReleaseCall]
  {
  }

  /** Whether a call gets as far as the first device read: there is a capture,
      or the factory gives one that reports open. */
  predicate ReachesDevice(s: Streamer, env: ReadEnv) {
    s.capture.Some? || Opens(env.reopen)
  }

  /** Whether a failed first read leads to recovery rather than giving up. */
  predicate Recovers(s: Streamer, env: ReadEnv) {
    ReachesDevice(s, env) && env.first.DeviceFailed? && s.failures + 1 <= MaxFailures
  }

  /** The capture the first read is made on. */
  function FirstCapture(s: Streamer, env: ReadEnv): Option<Handle> {
    if s.capture.Some? then s.capture else OpenCapture(env.reopen)
  }

  /** `VideoStreamer.read()`. */
  function Read(s: Streamer, env: ReadEnv): (r: Step)
    // the snapshot is replaced exactly when a frame is returned
    ensures r.frame.None? ==> NoFrame(s, r)
    ensures r.frame.Some? ==> Snapshot(r, env.now)
    ensures r.state.detector == s.detector
    // without a capture, a failed reopen ends the call and leaves the counter alone
    ensures !ReachesDevice(s, env) ==>
      r.frame.None? && r.state.failures == s.failures && r.calls == multiset{FactoryCall}
      && r.state.capture == OpenCapture(env.reopen)
    // a first-attempt success resets the counter; a failure increments it
    ensures ReachesDevice(s, env) && env.first.DeviceFrame? ==>
      r.frame.Some? && r.state.failures == 0 && r.state.capture == FirstCapture(s, env)
      && Delivers(s.detector, env.first.frame, env.inference, r.frame.value, r.detections)
    ensures ReachesDevice(s, env) && env.first.DeviceFailed? ==> r.state.failures == s.failures + 1
    // past the threshold: no frame and the same capture
    ensures ReachesDevice(s, env) && env.first.DeviceFailed? && !Recovers(s, env) ==>
      r.frame.None? && r.state.capture == FirstCapture(s, env)
    // at or below it: a new capture, and a frame exactly when the retry succeeds
    ensures Recovers(s, env) ==>
      && r.state.capture == OpenCapture(env.recovery)
      && (r.frame.Some? <==> Opens(env.recovery) && env.retry.DeviceFrame?)
      && (r.frame.Some? ==> Delivers(s.detector, env.retry.frame, env.inference, r.frame.value, r.detections))
  {
    if s.capture.None? then
      var reopened := OpenCapture(env.reopen);
      var s1 := s.(capture := reopened);
      if reopened.None? || !IsOpen(reopened.value) then Step(s1, None, [], multiset{FactoryCall})
      else
        var q := ReadOpen(s1, env);
        q.(calls := multiset{FactoryCall} + q.calls)
    else ReadOpen(s, env)
  }

  /** The calls one `read()` makes. Past the threshold: one read and no
      release, pause or reopen. At or below it: one pause, one release if the
      capture reports open, and one or two reads. Never more than two reads or
      two factory calls. */
  lemma ReadCalls(s: Streamer, env: ReadEnv)
    ensures var r := Read(s, env);
      && (ReachesDevice(s, env) && env.first.DeviceFailed? && !Recovers(s, env) ==>
        r.calls[ReleaseCall] == 0 && r.calls[Sleep] == 0 && r.calls[ReadCall] == 1)
      && (Recovers(s, env) ==>
        && r.calls[Sleep] == 1
        && r.calls[ReleaseCall] == (if IsOpen(FirstCapture(s, env).value) then 1 else 0)
        && r.calls[ReadCall] == (if Opens(env.recovery) then 2 else 1))
      && r.calls[FactoryCall] <= 2 && r.calls[ReadCall] <= 2 && r.calls[Sleep] <= 1
  {
    if ReachesDevice(s, env) {
      var s1 := s.(capture := FirstCapture(s, env));
      ReadOpenCalls(s1, env);
      var q := ReadOpen(s1, env);
      if s.capture.None? {
        assert Read(s, env).calls == multiset{FactoryCall} + q.calls;
      } else {
        assert s1 == s;
      }
    }
  }

  /** Successive `read()` calls, one per environment. */
  function Run(s: Streamer, envs: seq<ReadEnv>): (steps: seq<Step>)
    ensures |steps| == |envs|
    ensures envs != [] ==> steps[0] == Read(s, envs[0])
    ensures forall i :: 0 < i < |envs| ==> steps[i] == Read(steps[i - 1].state, envs[i])
    decreases |envs|
  {
    if envs == [] then []
    else
      var first := Read(s, envs[0]);
      [first] + Run(first.state, envs[1..])
  }

  /** The calls of `Run` after the first are the run from the first call's
      state. */
  lemma RunTail(s: Streamer, envs: seq<ReadEnv>)
    requires envs != []
    ensures Run(s, envs)[1..] == Run(Read(s, envs[0]).state, envs[1..])
  {
  }

  /** A call that fails however it is tried: the first read fails, and the
      factory returns a capture that either does not report open or whose read
      fails too. */
  predicate Hopeless(env: ReadEnv) {
    env.first.DeviceFailed? && env.recovery.Returned? && (IsOpen(env.recovery.handle) ==> env.retry.DeviceFailed?)
  }

  /** One call that cannot recover, on a streamer with a capture: it counts a
      failure, returns nothing, keeps a capture and the snapshot, and pauses
      exactly when the new count is at most the threshold. */
  lemma HopelessRead(s: Streamer, env: ReadEnv)
    requires s.capture.Some? && Hopeless(env)
    ensures var r := Read(s, env);
      && r.frame.None?
      && r.state.capture.Some?
      && r.state.failures == s.failures + 1
      && r.state.detections == s.detections
      && r.state.lastUpdated == s.lastUpdated
      && (r.calls[Sleep] == 1 <==> s.failures + 1 <= MaxFailures)
  {
    ReadCalls(s, env);
  }

  /** Consecutive failing calls on a streamer with a capture: each one counts a
      failure, returns nothing and leaves the snapshot alone; each recovers
      (release, pause, reopen) exactly while the count stays at or below the
      threshold, and not from the sixth consecutive failure on. */
  lemma {:induction false} ConsecutiveFailures(s: Streamer, envs: seq<ReadEnv>)
    requires s.capture.Some?
    requires forall i :: 0 <= i < |envs| ==> Hopeless(envs[i])
    ensures var steps := Run(s, envs);
      forall i :: 0 <= i < |steps| ==>
        && steps[i].frame.None?
        && steps[i].state.capture.Some?
        && steps[i].state.failures == s.failures + i + 1
        && steps[i].state.detections == s.detections
        && steps[i].state.lastUpdated == s.lastUpdated
        && (steps[i].calls[Sleep] == 1 <==> s.failures + i + 1 <= MaxFailures)
    decreases |envs|
  {
    if envs != [] {
      var steps := Run(s, envs);
      var first := Read(s, envs[0]);
      HopelessRead(s, envs[0]);
      ConsecutiveFailures(first.state, envs[1..]);
      RunTail(s, envs);
      var tail := Run(first.state, envs[1..]);
      forall i | 0 < i < |steps| ensures steps[i] == tail[i - 1] {
      }
    }
  }

  /** One call sets the timestamp when it returns a frame and otherwise
      leaves it as it was. */
  lemma ReadStamps(s: Streamer, env: ReadEnv)
    ensures var r := Read(s, env);
      r.state.lastUpdated == if r.frame.Some? then Some(env.now) else s.lastUpdated
  {
  }

  /** The timestamp each call of a run leaves: set when it returns a frame,
      otherwise the one before it (`prev` before the first call). */
  predicate StampsFollow(prev: Option<real>, steps: seq<Step>) {
    && (forall i :: 0 <= i < |steps| && steps[i].frame.Some? ==> steps[i].state.lastUpdated.Some?)
    && (steps != [] && steps[0].frame.None? ==> steps[0].state.lastUpdated == prev)
    && (forall i :: 0 < i < |steps| && steps[i].frame.None? ==> steps[i].state.lastUpdated == steps[i - 1].state.lastUpdated)
  }

  /** Every run stamps its calls as `read` does. */
  lemma {:induction false} RunStamps(s: Streamer, envs: seq<ReadEnv>)
    ensures StampsFollow(s.lastUpdated, Run(s, envs))
    decreases |envs|
  {
    if envs != [] {
      var steps := Run(s, envs);
      var first := Read(s, envs[0]);
      ReadStamps(s, envs[0]);
      RunStamps(first.state, envs[1..]);
      RunTail(s, envs);
      StampsCons(s.lastUpdated, steps, Run(first.state, envs[1..]));
    }
  }

  /** A run whose first call stamps as `read` does and whose remaining calls
      stamp from that call's state on. */
  lemma StampsCons(prev: Option<real>, steps: seq<Step>, tail: seq<Step>)
    requires steps != [] && steps[1..] == tail
    requires steps[0].frame.Some? ==> steps[0].state.lastUpdated.Some?
    requires steps[0].frame.None? ==> steps[0].state.lastUpdated == prev
    requires StampsFollow(steps[0].state.lastUpdated, tail)
    ensures StampsFollow(prev, steps)
  {
    forall i | 0 <= i < |tail| ensures tail[i] == steps[i + 1] {
    }
  }

  /** Under `StampsFollow` from no timestamp, call `i` leaves none exactly
      when no call up to it returned a frame. */
  lemma {:induction false} UnstampedUntilFrame(steps: seq<Step>, i: nat)
    requires StampsFollow(None, steps) && i < |steps|
    ensures steps[i].state.lastUpdated.None? <==> forall j :: 0 <= j <= i ==> steps[j].frame.None?
  {
    if i > 0 {
      UnstampedUntilFrame(steps, i - 1);
      if steps[i].frame.None? && steps[i].state.lastUpdated.None? {
        assert steps[i - 1].state.lastUpdated.None?;
      }
    }
  }

  /** Under `StampsFollow` from a set timestamp, every call leaves one set. */
  lemma {:induction false} StampedForever(prev: Option<real>, steps: seq<Step>, i: nat)
    requires StampsFollow(prev, steps) && prev.Some? && i < |steps|
    ensures steps[i].state.lastUpdated.Some?
  {
    if i > 0 && steps[i].frame.None? {
      StampedForever(prev, steps, i - 1);
    }
  }

  /** `last_updated` stays `None` until the first call that returns a frame,
      and is set from then on. */
  lemma NoTimestampUntilFrame(s: Streamer, envs: seq<ReadEnv>)
    requires s.lastUpdated.None?
    ensures var steps := Run(s, envs);
      forall i :: 0 <= i < |steps| ==>
        (steps[i].state.lastUpdated.None? <==> forall j :: 0 <= j <= i ==> steps[j].frame.None?)
  {
    var steps := Run(s, envs);
    RunStamps(s, envs);
    forall i | 0 <= i < |steps|
      ensures steps[i].state.lastUpdated.None? <==> forall j :: 0 <= j <= i ==> steps[j].frame.None?
    {
      UnstampedUntilFrame(steps, i);
    }
  }

  /** Once set, `last_updated` is never cleared. */
  lemma TimestampStaysSet(s: Streamer, envs: seq<ReadEnv>)
    requires s.lastUpdated.Some?
    ensures forall i :: 0 <= i < |envs| ==> Run(s, envs)[i].state.lastUpdated.Some?
  {
    var steps := Run(s, envs);
    RunStamps(s, envs);
    forall i | 0 <= i < |envs| ensures steps[i].state.lastUpdated.Some? {
      StampedForever(s.lastUpdated, steps, i);
    }
  }

  /* ---------------------------------------------------------------- frames */

  /** A byte of an encoded image or of the HTTP body. */
  type byte = x: int | 0 <= x < 256

  /** What `frames()` has yielded and where it stands after a number of
      `read()` calls: `ended` when a read returned no frame and the generator
      returned, `consumed` the number of calls made. */
  datatype Pulled = Pulled(payloads: seq<seq<byte>>, state: Streamer, ended: bool, consumed: nat)

  /** The JPEG of each frame the encoder accepts, in order; frames it rejects
      are skipped. */
  function Encoded(frames: seq<Frame>, encode: Frame -> Option<seq<byte>>): (r: seq<seq<byte>>)
    ensures |r| <= |frames|
    ensures forall i :: 0 <= i < |frames| && encode(frames[i]).Some? ==> encode(frames[i]).value in r
    ensures forall p :: p in r ==> exists i :: 0 <= i < |frames| && encode(frames[i]) == Some(p)
  {
    if frames == [] then []
    else
      var rest := Encoded(frames[1..], encode);
      assert forall i :: 1 <= i < |frames| ==> frames[i] == frames[1..][i - 1];
      match encode(frames[0])
      case None => rest
      case Some(p) => [p] + rest
  }

  /** What the encoder makes of one frame: its JPEG, or nothing. */
  function EncodingOf(encode: Frame -> Option<seq<byte>>, f: Frame): (r: seq<seq<byte>>)
    ensures |r| <= 1 && (r == [] <==> encode(f).None?)
  {
    if encode(f).Some? then [encode(f).value] else []
  }

  /** The loop gathers what the encoder makes of each frame. */
  lemma {:induction false} EncodedGathers(frames: seq<Frame>, encode: Frame -> Option<seq<byte>>)
    ensures Encoded(frames, encode) == Gather(f => EncodingOf(encode, f), frames)
    decreases |frames|
  {
    if frames != [] {
      EncodedGathers(frames[1..], encode);
      assert frames == [frames[0]] + frames[1..];
      GatherCons(f => EncodingOf(encode, f), frames[0], frames[1..]);
    }
  }

  /** `origin` lists, in increasing order, the positions of exactly the
      frames the encoder accepts, and payload `k` is the JPEG of frame
      `origin[k]`. */
  predicate EncodedFrom(frames: seq<Frame>, encode: Frame -> Option<seq<byte>>, payloads: seq<seq<byte>>, origin: seq<nat>) {
    && |origin| == |payloads|
    && (forall k :: 0 <= k < |origin| ==> origin[k] < |frames| && encode(frames[origin[k]]) == Some(payloads[k]))
    && (forall j, k :: 0 <= j < k < |origin| ==> origin[j] < origin[k])
    && (forall i :: 0 <= i < |frames| && encode(frames[i]).Some? ==> i in origin)
  }

  /** The payloads are an order-preserving selection of the frames: one JPEG
      per accepted frame, in frame order, and none for a rejected frame. */
  lemma EncodedOrigins(frames: seq<Frame>, encode: Frame -> Option<seq<byte>>) returns (origin: seq<nat>)
    ensures EncodedFrom(frames, encode, Encoded(frames, encode), origin)
  {
    var one := f => EncodingOf(encode, f);
    var payloads := Encoded(frames, encode);
    EncodedGathers(frames, encode);
    origin := GatherPicks(one, frames);
    forall k | 0 <= k < |origin|
      ensures encode(frames[origin[k]]) == Some(payloads[k])
    {
      assert one(frames[origin[k]]) == [payloads[k]];
    }
    forall i | 0 <= i < |frames| && encode(frames[i]).Some? ensures i in origin {
      assert one(frames[i]) != [];
    }
  }

  /** The frames returned by a run of calls. */
  function FramesOf(steps: seq<Step>): seq<Frame>
    requires forall i :: 0 <= i < |steps| ==> steps[i].frame.Some?
  {
    seq(|steps|, i requires 0 <= i < |steps| => steps[i].frame.value)
  }

  /** The frame loop of `frames()` over the results of successive `read()`
      calls starting from `s`: it stops after the first call that returns no
      frame, and otherwise yields the encoding of each frame, skipping those
      the encoder rejects. */
  function Pull(s: Streamer, steps: seq<Step>, encode: Frame -> Option<seq<byte>>): (r: Pulled)
    ensures r.consumed <= |steps|
    ensures |r.payloads| <= r.consumed
    ensures !r.ended ==> r.consumed == |steps|
    ensures r.ended ==> r.consumed >= 1
    decreases |steps|
  {
    if steps == [] then Pulled([], s, false, 0)
    else if steps[0].frame.None? then Pulled([], steps[0].state, true, 1)
    else
      var rest := Pull(steps[0].state, steps[1..], encode);
      var mine := match encode(steps[0].frame.value) case None => [] case Some(p) => [p];
      Pulled(mine + rest.payloads, rest.state, rest.ended, rest.consumed + 1)
  }

  /** `frames()` driven for at most `|envs|` calls of `read()`. */
  function Frames(s: Streamer, envs: seq<ReadEnv>, encode: Frame -> Option<seq<byte>>): (r: Pulled)
    ensures r.consumed <= |envs|
    ensures !r.ended ==> r.consumed == |envs|
  {
    Pull(s, Run(s, envs), encode)
  }

  /** How many of the consumed calls returned a frame: all of them, or all
      but the last when the loop ended. */
  function Delivered(r: Pulled): nat {
    if r.ended && r.consumed > 0 then r.consumed - 1 else r.consumed
  }

  /** The frame loop against the calls it is fed: every call before the last
      one consumed returned a frame, it ended exactly when the last one
      returned none, and its state is that call's state. */
  lemma {:induction false} PullStops(s: Streamer, steps: seq<Step>, encode: Frame -> Option<seq<byte>>)
    ensures var r := Pull(s, steps, encode);
      && (forall i :: 0 <= i < Delivered(r) ==> steps[i].frame.Some?)
      && (r.ended ==> steps[r.consumed - 1].frame.None?)
      && (r.consumed > 0 ==> r.state == steps[r.consumed - 1].state)
    decreases |steps|
  {
    if steps != [] && steps[0].frame.Some? {
      var tail := steps[1..];
      var rest := Pull(steps[0].state, tail, encode);
      PullStops(steps[0].state, tail, encode);
      forall i | 0 < i < |steps| ensures steps[i] == tail[i - 1] {
      }
    }
  }

  /** The frames of a run whose first call returned one: that frame, then the
      frames of the rest. */
  lemma FramesOfCons(steps: seq<Step>, n: nat)
    requires 1 <= n <= |steps|
    requires forall i :: 0 <= i < n ==> steps[i].frame.Some?
    ensures FramesOf(steps[..n]) == [steps[0].frame.value] + FramesOf(steps[1..][..n - 1])
  {
    var tail := steps[1..][..n - 1];
    assert forall i :: 0 <= i < n - 1 ==> tail[i] == steps[i + 1];
  }

  /** What the frame loop yielded is the encoding of the frames returned, in
      order. */
  lemma {:induction false} PullYields(s: Streamer, steps: seq<Step>, encode: Frame -> Option<seq<byte>>)
    ensures var r := Pull(s, steps, encode);
      && Delivered(r) <= |steps|
      && (forall i :: 0 <= i < Delivered(r) ==> steps[i].frame.Some?)
      && r.payloads == Encoded(FramesOf(steps[..Delivered(r)]), encode)
    decreases |steps|
  {
    PullStops(s, steps, encode);
    if steps != [] && steps[0].frame.Some? {
      var r := Pull(s, steps, encode);
      var rest := Pull(steps[0].state, steps[1..], encode);
      PullYields(steps[0].state, steps[1..], encode);
      assert Delivered(r) == Delivered(rest) + 1;
      FramesOfCons(steps, Delivered(r));
    }
  }

  /** The frame loop gives up for good at the first call that returns nothing,
      even if the environment would have given frames afterwards. */
  lemma FramesStopAtFirstGap(s: Streamer, envs: seq<ReadEnv>, encode: Frame -> Option<seq<byte>>)
    requires envs != [] && Read(s, envs[0]).frame.None?
    ensures Frames(s, envs, encode) == Pulled([], Read(s, envs[0]).state, true, 1)
  {
  }

  /* ----------------------------------------------------------------- mjpeg */

  /** The bytes of a string of ASCII characters. */
  function Ascii(text: string): (r: seq<byte>)
    ensures |r| == |text|
  {
    seq(|text|, i requires 0 <= i < |text| => (text[i] as int) % 256)
  }

  /** The part boundary of the multipart response. */
  const Boundary: seq<byte> := Ascii("--frame")

  /** Boundary, part header and the blank line that ends it. */
  const PartHeader: seq<byte> := Boundary + Ascii("\r\nContent-Type: image/jpeg\r\n\r\n")

  /** The line break after the JPEG. */
  const PartTrailer: seq<byte> := Ascii("\r\n")

  /** One part of the `multipart/x-mixed-replace` body. */
  function Part(payload: seq<byte>): (r: seq<byte>)
    ensures |r| == |PartHeader| + |payload| + |PartTrailer|
    ensures r[..|Boundary|] == Boundary
  {
    PartHeader + payload + PartTrailer
  }

  /** The JPEG carried by a part, `None` for bytes that are not one part. */
  function Unframe(part: seq<byte>): (r: Option<seq<byte>>)
    ensures r.Some? ==> |r.value| == |part| - |PartHeader| - |PartTrailer|
  {
    if |part| >= |PartHeader| + |PartTrailer|
       && part[..|PartHeader|] == PartHeader
       && part[|part| - |PartTrailer|..] == PartTrailer
    then Some(part[|PartHeader|..|part| - |PartTrailer|])
    else None
  }

  /** Every part gives back the JPEG it carries. */
  lemma UnframePart(payload: seq<byte>)
    ensures Unframe(Part(payload)) == Some(payload)
  {
    var part := Part(payload);
    assert part[..|PartHeader|] == PartHeader;
    assert part[|part| - |PartTrailer|..] == PartTrailer;
    assert part[|PartHeader|..|part| - |PartTrailer|] == payload;
  }

  /** Bytes that unframe are exactly the part of what they unframe to. */
  lemma PartUnframe(part: seq<byte>)
    requires Unframe(part).Some?
    ensures Part(Unframe(part).value) == part
  {
    var payload := Unframe(part).value;
    assert part == part[..|PartHeader|] + payload + part[|part| - |PartTrailer|..];
  }

  /** `mjpeg_stream()`: one part per payload `frames()` yields, in order. */
  function MjpegStream(s: Streamer, envs: seq<ReadEnv>, encode: Frame -> Option<seq<byte>>): (r: seq<seq<byte>>)
    ensures var payloads := Frames(s, envs, encode).payloads;
      |r| == |payloads| && forall i :: 0 <= i < |r| ==> Unframe(r[i]) == Some(payloads[i])
  {
    var payloads := Frames(s, envs, encode).payloads;
    var parts := seq(|payloads|, i requires 0 <= i < |payloads| => Part(payloads[i]));
    assert forall i :: 0 <= i < |parts| ==> Unframe(parts[i]) == Some(payloads[i]) by {
      forall i | 0 <= i < |parts| ensures Unframe(parts[i]) == Some(payloads[i]) {
        UnframePart(payloads[i]);
      }
    }
    parts
  }

  /* --------------------------------------------------------------- summary */

  /** Label counts in the order labels were first met, as `dict(Counter(..))`
      lists them. */
  type Counts = seq<(string, nat)>

  /** The labels a tally lists, in order. */
  function Keys(t: Counts): (ks: seq<string>)
    ensures |ks| == |t|
    ensures forall i :: 0 <= i < |t| ==> ks[i] == t[i].0
  {
    if t == [] then [] else [t[0].0] + Keys(t[1..])
  }

  /** No label is listed twice. */
  predicate DistinctKeys(t: Counts) {
    forall i, j :: 0 <= i < j < |t| ==> t[i].0 != t[j].0
  }

  /** The count of a label, 0 when it is not listed. */
  function Lookup(t: Counts, k: string): nat
  {
    if t == [] then 0 else if t[0].0 == k then t[0].1 else Lookup(t[1..], k)
  }

  /** The sum of the counts. */
  function Total(t: Counts): nat
  {
    if t == [] then 0 else t[0].1 + Total(t[1..])
  }

  /** `counter[k] += 1`: a new label goes at the end with count 1. */
  function Bump(t: Counts, k: string): (r: Counts)
    ensures |r| == |t| || |r| == |t| + 1
  {
    if t == [] then [(k, 1)]
    else if t[0].0 == k then [(k, t[0].1 + 1)] + t[1..]
    else [t[0]] + Bump(t[1..], k)
  }

  /** Bumping adds one to the count of its label and to the total, and to
      nothing else. */
  lemma {:induction false} BumpCounts(t: Counts, k: string)
    ensures forall x :: Lookup(Bump(t, k), x) == Lookup(t, x) + (if x == k then 1 else 0)
    ensures Total(Bump(t, k)) == Total(t) + 1
  {
    if t != [] && t[0].0 != k {
      BumpCounts(t[1..], k);
    }
  }

  /** Bumping keeps the labels in their order and appends a new label at the
      end. */
  lemma {:induction false} BumpKeys(t: Counts, k: string)
    ensures Keys(Bump(t, k)) == if k in Keys(t) then Keys(t) else Keys(t) + [k]
  {
    var r := Bump(t, k);
    if t != [] && t[0].0 != k {
      BumpKeys(t[1..], k);
      assert r == [t[0]] + Bump(t[1..], k);
    }
  }

  /** Bumping keeps the labels distinct. */
  lemma BumpDistinct(t: Counts, k: string)
    requires DistinctKeys(t)
    ensures DistinctKeys(Bump(t, k))
  {
    var r := Bump(t, k);
    BumpKeys(t, k);
    forall i, j | 0 <= i < j < |r| ensures r[i].0 != r[j].0 {
      assert r[i].0 == Keys(r)[i] && r[j].0 == Keys(r)[j];
      if j < |t| {
        assert Keys(t)[i] == t[i].0 && Keys(t)[j] == t[j].0;
      }
    }
  }

  /** The elements of `xs` without repeats, each where it first occurs. */
  function FirstOccurrences(xs: seq<string>): (r: seq<string>)
    ensures forall x :: x in r <==> x in xs
    ensures forall i, j :: 0 <= i < j < |r| ==> r[i] != r[j]
  {
    if xs == [] then []
    else
      var init := xs[..|xs| - 1];
      var last := xs[|xs| - 1];
      assert xs == init + [last];
      if last in init then FirstOccurrences(init) else FirstOccurrences(init) + [last]
  }

  /** `Counter(names)`. */
  function Tally(names: seq<string>): (t: Counts)
    ensures DistinctKeys(t)
    ensures forall x :: Lookup(t, x) == multiset(names)[x]
    ensures Keys(t) == FirstOccurrences(names)
  {
    if names == [] then []
    else
      var init := names[..|names| - 1];
      var last := names[|names| - 1];
      assert names == init + [last];
      BumpCounts(Tally(init), last);
      BumpKeys(Tally(init), last);
      BumpDistinct(Tally(init), last);
      Bump(Tally(init), last)
  }

  /** The counts of a tally add up to the number of labels counted. */
  lemma {:induction false} TallyTotal(names: seq<string>)
    ensures Total(Tally(names)) == |names|
  {
    if names != [] {
      TallyTotal(names[..|names| - 1]);
      BumpCounts(Tally(names[..|names| - 1]), names[|names| - 1]);
    }
  }

  /** The labels of a detection list. */
  function NamesOf(detections: seq<Detector.Detection>): seq<string> {
    seq(|detections|, i requires 0 <= i < |detections| => detections[i].name)
  }

  /** The dictionary `detection_summary()` returns. */
  datatype Summary = Summary(count: nat, labels: Counts, detections: seq<Detector.Detection>, lastUpdated: Option<real>)

  /** `detection_summary()`: the latest snapshot, its size, and how many of its
      detections carry each label. */
  function DetectionSummary(s: Streamer): (r: Summary)
    ensures r.count == |s.detections| == Total(r.labels)
    ensures r.detections == s.detections && r.lastUpdated == s.lastUpdated
    ensures DistinctKeys(r.labels)
    ensures forall x :: Lookup(r.labels, x) == multiset(NamesOf(s.detections))[x]
    ensures forall x :: x in Keys(r.labels) <==> exists i :: 0 <= i < |s.detections| && s.detections[i].name == x
  {
    var names := NamesOf(s.detections);
    assert |names| == |s.detections| && forall i :: 0 <= i < |names| ==> names[i] == s.detections[i].name;
    TallyTotal(names);
    Summary(|s.detections|, Tally(names), s.detections, s.lastUpdated)
  }
}
