/**
 The capture session of CaptureManager.cpp: a state machine with two frame
 buffers of `width * height * 4` bytes, a capture flag, three Direct3D/DXGI
 handles and a thread pool that receives one task per produced frame.

 The first half of the module states one cycle of the capture loop on
 values (`Cycle`, `Run`) and proves what a cycle and a sequence of cycles do;
 the class `CaptureManager` holds the session's fields and its methods are
 proved against those functions.

 The thread that runs the loop and the thread that calls `Stop` share the
 atomic flag `capturing`. Within one cycle the loop reads it twice (after
 acquiring and after mapping); a cycle's `stoppedFrom` is the first of those
 checks that reads false. Once `Stop` has cleared the flag it stays clear
 until the loop has exited, since `Stop` joins the thread under the mutex
 that `Start` also takes.
 */
module Manager {
  import opened CaptureTypes
  import opened FrameCopy

  /** The code `AcquireFrame` returns when the desktop has not changed. */
  const NoFrameChange: int := 1557

  /**
   `CaptureManager::AcquireFrame`: the HRESULT switch, whose `false` and
   `true` become 0 and 1 as an `int`.
   */
  function AcquireCode(hr: HResult): (code: int)
    ensures code == 1 <==> hr == Ok
    ensures code == NoFrameChange <==> hr == DxgiErrorWaitTimeout
    ensures code == 0 <==> hr != Ok && hr != DxgiErrorWaitTimeout
  {
    if hr == DxgiErrorAccessLost then 0
    else if hr == DxgiErrorWaitTimeout then NoFrameChange
    else if hr == DxgiErrorInvalidCall then 0
    else if hr == Ok then 1
    else 0
  }

  /**
   A task given to the thread pool. The task's lambda copies only the
   timestamp; the buffer, the sizes and the callback it reads through `this`
   when it runs.
   */
  datatype DispatchTask = DispatchTask(timeStamp: int)

  /** The checks of `capturing` within one cycle. */
  const AcquireCheck: nat := 1
  const MapCheck: nat := 2

  /**
   What one cycle meets: the desktop's answer to `AcquireNextFrame`, the
   outcome of the GPU-to-CPU transfer, the first check that sees the capture
   stopped, and the wall-clock time in milliseconds.
   */
  datatype CycleInput = CycleInput(hr: HResult, transfer: MapOutcome, stoppedFrom: nat, timeStamp: int)

  predicate StillCapturing(inp: CycleInput, check: nat)
  {
    check < inp.stoppedFrom
  }

  /** A cycle in which the flag never read false, so that the loop goes round again. */
  predicate RanThrough(inp: CycleInput)
  {
    StillCapturing(inp, MapCheck)
  }

  /** The mapped texture holds the session's `height` rows of `width * 4` bytes. */
  predicate Fits(inp: CycleInput, width: int, height: int)
  {
    inp.transfer.Mapped? ==>
      0 <= width && 0 <= height && Covers(inp.transfer.src, inp.transfer.rowPitch, width * 4, height)
  }

  predicate AllFit(ins: seq<CycleInput>, width: int, height: int)
  {
    forall i :: 0 <= i < |ins| ==> Fits(ins[i], width, height)
  }

  /** The loop starts another cycle only after one in which capturing stayed on. */
  predicate LoopOrder(ins: seq<CycleInput>)
  {
    forall i :: 0 <= i < |ins| - 1 ==> RanThrough(ins[i])
  }

  /**
   The part of the session a cycle touches: the sizes, the current and the
   previous frame buffer, whether a duplicated frame is held (acquired and not
   yet released), and the tasks given to the thread pool, oldest first.
   */
  datatype Frames = Frames(width: int, height: int, current: seq<Byte>, previous: seq<Byte>,
                           held: bool, queue: seq<DispatchTask>)

  predicate Sized(f: Frames)
  {
    && 0 <= f.width && 0 <= f.height
    && |f.current| == f.width * f.height * 4
    && |f.previous| == |f.current|
  }

  /**
   `MapFrameToCPU` on a held frame. On success every row is copied and the
   frame is released. On failure no byte is written; the frame stays held as
   the code is written, and is released when `releaseOnFailure` is set.
   */
  function MapFrame(f: Frames, m: MapOutcome, releaseOnFailure: bool): (r: (bool, Frames))
    requires Sized(f) && (m.Mapped? ==> Covers(m.src, m.rowPitch, f.width * 4, f.height))
    ensures Sized(r.1) && r.1.width == f.width && r.1.height == f.height
    ensures r.1.previous == f.previous && r.1.queue == f.queue
    ensures r.0 <==> m.Mapped?
    ensures r.0 ==> r.1.current == Packed(m.src, m.rowPitch, f.width * 4, f.height) && !r.1.held
    ensures !r.0 ==> r.1.current == f.current && r.1.held == (f.held && !releaseOnFailure)
  {
    match m
    case Mapped(src, pitch) =>
      MulIsProduct(f.height, f.width * 4);
      assert f.height * (f.width * 4) == f.width * f.height * 4;
      (true, f.(current := Packed(src, pitch, f.width * 4, f.height), held := false))
    case _ => (false, if releaseOnFailure then f.(held := false) else f)
  }

  /** Give the frame to the thread pool and keep it as the previous frame. */
  function Dispatch(f: Frames, timeStamp: int): Frames
  {
    f.(queue := f.queue + [DispatchTask(timeStamp)], previous := f.current)
  }

  /** One cycle of `CaptureLoop`, with `MapFrameToCPU` as written or as corrected. */
  function CycleWith(f: Frames, inp: CycleInput, releaseOnFailure: bool): (r: Frames)
    requires Sized(f) && Fits(inp, f.width, f.height)
    ensures Sized(r) && r.width == f.width && r.height == f.height
  {
    var code := AcquireCode(AcquireNextFrame(f.held, inp.hr));
    var acquired := if code == 1 then f.(held := true) else f;
    if code == 0 || !StillCapturing(inp, AcquireCheck) then acquired
    else if code != NoFrameChange then
      var (ok, mapped) := MapFrame(acquired, inp.transfer, releaseOnFailure);
      if !ok || !StillCapturing(inp, MapCheck) then mapped
      else Dispatch(mapped, inp.timeStamp)
    else
      Dispatch(acquired.(current := acquired.previous), inp.timeStamp)
  }

  /** The cycle exactly as CaptureManager.cpp has it: a failed transfer keeps the frame. */
  function CycleAsWritten(f: Frames, inp: CycleInput): (r: Frames)
    requires Sized(f) && Fits(inp, f.width, f.height)
  {
    CycleWith(f, inp, false)
  }

  /** Whether a cycle that starts with no frame held gives a task to the pool. */
  predicate Dispatches(inp: CycleInput)
  {
    var code := AcquireCode(inp.hr);
    && code != 0
    && StillCapturing(inp, AcquireCheck)
    && (code == NoFrameChange || (inp.transfer.Mapped? && StillCapturing(inp, MapCheck)))
  }

  /**
   One cycle of `CaptureLoop`, with the frame released on every exit of
   `MapFrameToCPU`.
   */
  function Cycle(f: Frames, inp: CycleInput): (r: Frames)
    requires Sized(f) && Fits(inp, f.width, f.height)
    // the buffers keep their size
    ensures Sized(r) && r.width == f.width && r.height == f.height
    // a cycle enqueues one task stamped with its time, or none
    ensures r.queue == f.queue || r.queue == f.queue + [DispatchTask(inp.timeStamp)]
    ensures !f.held ==> (r.queue != f.queue <==> Dispatches(inp))
    // code 0, or capture stopped before the frame is used: buffers untouched, nothing enqueued
    ensures AcquireCode(AcquireNextFrame(f.held, inp.hr)) == 0 || !StillCapturing(inp, AcquireCheck) ==>
              r.current == f.current && r.previous == f.previous && r.queue == f.queue
    // after a dispatch the previous frame is the frame just dispatched
    ensures r.queue != f.queue ==> r.previous == r.current
    // no change on the desktop: the previous frame is reused
    ensures !f.held && inp.hr == DxgiErrorWaitTimeout && StillCapturing(inp, AcquireCheck) ==>
              r.current == f.previous && r.queue != f.queue
    // a new frame is packed into the current buffer
    ensures !f.held && inp.hr == Ok && inp.transfer.Mapped? && StillCapturing(inp, AcquireCheck) ==>
              r.current == Packed(inp.transfer.src, inp.transfer.rowPitch, f.width * 4, f.height)
    // a failed transfer writes nothing
    ensures !f.held && inp.hr == Ok && !inp.transfer.Mapped? ==> r.current == f.current && r.queue == f.queue
    // no frame is left held unless capture stopped right after acquiring it
    ensures !f.held && StillCapturing(inp, AcquireCheck) ==> !r.held
  {
    CycleWith(f, inp, true)
  }

  /**
   The cycle as written and the corrected cycle agree in everything but the
   held flag, and differ only after a failed transfer of a frame the cycle
   itself acquired while capture went on: there the frame stays held.
   */
  lemma CycleAgreesUnlessTransferFails(f: Frames, inp: CycleInput)
    requires Sized(f) && Fits(inp, f.width, f.height)
    ensures CycleAsWritten(f, inp).(held := false) == Cycle(f, inp).(held := false)
    ensures CycleAsWritten(f, inp) != Cycle(f, inp) <==>
              !f.held && inp.hr == Ok && StillCapturing(inp, AcquireCheck) && !inp.transfer.Mapped?
  {
  }

  /** The cycles the loop runs, in order, from the state `f`. */
  function Run(f: Frames, ins: seq<CycleInput>, releaseOnFailure: bool): (r: Frames)
    requires Sized(f) && AllFit(ins, f.width, f.height)
    ensures Sized(r) && r.width == f.width && r.height == f.height
    decreases |ins|
  {
    if ins == [] then f
    else
      var last := |ins| - 1;
      assert AllFit(ins[..last], f.width, f.height);
      CycleWith(Run(f, ins[..last], releaseOnFailure), ins[last], releaseOnFailure)
  }

  /** The tasks a run with no frame left held gives to the pool. */
  function Tasks(ins: seq<CycleInput>): seq<DispatchTask>
    decreases |ins|
  {
    if ins == [] then []
    else
      var last := |ins| - 1;
      Tasks(ins[..last]) + (if Dispatches(ins[last]) then [DispatchTask(ins[last].timeStamp)] else [])
  }

  /**
   With the frame released on every exit, the pool receives exactly one task
   per dispatching cycle, in the order of the cycles, and no frame is left
   held while capture goes on.
   */
  lemma {:induction false} RunDispatchesEveryFrame(f: Frames, ins: seq<CycleInput>)
    requires Sized(f) && !f.held && AllFit(ins, f.width, f.height) && LoopOrder(ins)
    ensures Run(f, ins, true).queue == f.queue + Tasks(ins)
    ensures ins == [] || StillCapturing(ins[|ins| - 1], AcquireCheck) ==> !Run(f, ins, true).held
    decreases |ins|
  {
    if ins != [] {
      var last := |ins| - 1;
      var init := ins[..last];
      assert AllFit(init, f.width, f.height);
      assert LoopOrder(init);
      RunDispatchesEveryFrame(f, init);
      var g := Run(f, init, true);
      assert init == [] || RanThrough(init[|init| - 1]);
      assert !g.held;
      var r := Cycle(g, ins[last]);
      assert Run(f, ins, true) == r;
    }
  }

  /** A held frame freezes the session: no later cycle changes anything. */
  lemma {:induction false} HeldFrameFreezes(f: Frames, ins: seq<CycleInput>, releaseOnFailure: bool)
    requires Sized(f) && f.held && AllFit(ins, f.width, f.height)
    ensures Run(f, ins, releaseOnFailure) == f
    decreases |ins|
  {
    if ins != [] {
      var last := |ins| - 1;
      assert AllFit(ins[..last], f.width, f.height);
      HeldFrameFreezes(f, ins[..last], releaseOnFailure);
    }
  }

  /**
   As written, a failed staging texture or map leaves the frame acquired.
   Every later `AcquireNextFrame` then fails with DXGI_ERROR_INVALID_CALL, so
   from that cycle on the session never changes again and no frame is ever
   dispatched, whatever the desktop offers.
   */
  lemma {:induction false} FailedTransferStallsCapture(f: Frames, first: CycleInput, rest: seq<CycleInput>)
    requires Sized(f) && !f.held && AllFit([first] + rest, f.width, f.height)
    requires first.hr == Ok && !first.transfer.Mapped? && StillCapturing(first, AcquireCheck)
    ensures CycleAsWritten(f, first).held
    ensures Run(f, [first] + rest, false) == CycleAsWritten(f, first)
    ensures Run(f, [first] + rest, false).queue == f.queue
    decreases |rest|
  {
    var g := CycleAsWritten(f, first);
    if rest == [] {
      assert ([first] + rest)[..0] == [];
    } else {
      var last := |rest| - 1;
      var ins := [first] + rest;
      assert ins[..|ins| - 1] == [first] + rest[..last];
      assert AllFit([first] + rest[..last], f.width, f.height);
      FailedTransferStallsCapture(f, first, rest[..last]);
      assert Run(f, ins, false) == CycleWith(g, ins[|ins| - 1], false);
    }
  }

  /**
   A concrete stall: one failed staging texture, then a cycle that offers a
   new frame. As written the second frame is never dispatched; with the
   frame released on failure it is.
   */
  lemma StallExample(f: Frames, src: seq<Byte>)
    requires Sized(f) && !f.held && f.width == 1 && f.height == 1 && |src| == 4
    ensures var fail := CycleInput(Ok, StagingFailed, 3, 0);
            var next := CycleInput(Ok, Mapped(src, 4), 3, 16);
            && Run(f, [fail, next], false).queue == f.queue
            && Run(f, [fail, next], true).queue == f.queue + [DispatchTask(16)]
  {
    var fail := CycleInput(Ok, StagingFailed, 3, 0);
    var next := CycleInput(Ok, Mapped(src, 4), 3, 16);
    var ins := [fail, next];
    assert Fits(next, 1, 1);
    assert AllFit(ins, 1, 1);
    assert ins == [fail] + [next];
    FailedTransferStallsCapture(f, fail, [next]);
    RunDispatchesEveryFrame(f, ins);
    assert AcquireCode(Ok) == 1;
    assert !Dispatches(fail);
    assert Dispatches(next);
    assert Tasks([fail]) == [] by {
      assert [fail][..0] == [];
    }
    assert Tasks(ins) == Tasks([fail]) + [DispatchTask(16)] by {
      assert ins[..1] == [fail];
    }
  }

  /** The session: the fields of `CaptureManager` the model keeps. */
  class CaptureManager {
    var capturing: bool
    /** `captureThread.joinable()` */
    var threadJoinable: bool
    /** How many capture threads were created. */
    ghost var threadsStarted: nat
    var hasDevice: bool
    var hasContext: bool
    var hasDuplication: bool
    /** A frame acquired from the duplication and not yet released. */
    var frameHeld: bool
    var frameWidth: int
    var frameHeight: int
    var frameSize: int
    var targetFps: int
    var frameBuffer: seq<Byte>
    var previousFrameBuffer: seq<Byte>
    /** The tasks given to the thread pool, oldest first. */
    var taskQueue: seq<DispatchTask>
    var frameCallback: Option<CallbackId>

    ghost predicate Valid()
      reads this
    {
      && threadJoinable == capturing
      && 0 <= frameWidth && 0 <= frameHeight
      && frameSize == frameWidth * frameHeight * 4
      && |frameBuffer| == frameSize && |previousFrameBuffer| == frameSize
    }

    ghost function Snapshot(): (f: Frames)
      reads this
      requires Valid()
      ensures Sized(f)
    {
      Frames(frameWidth, frameHeight, frameBuffer, previousFrameBuffer, frameHeld, taskQueue)
    }

    /**
     Not capturing, no thread, empty buffers. The source leaves the sizes and
     the frame rate uninitialized until `Initialize`; here they start at 0.
     */
    constructor ()
      ensures Valid() && !capturing && threadsStarted == 0 && frameCallback == None
      ensures !hasDevice && !hasContext && !hasDuplication && !frameHeld
      ensures frameBuffer == [] && previousFrameBuffer == [] && taskQueue == []
    {
      capturing := false;
      threadJoinable := false;
      threadsStarted := 0;
      hasDevice, hasContext, hasDuplication, frameHeld := false, false, false, false;
      frameWidth, frameHeight, frameSize, targetFps := 0, 0, 0, 0;
      frameBuffer, previousFrameBuffer := [], [];
      taskQueue := [];
      frameCallback := None;
    }

    /**
     Store the sizes, resize both buffers to `width * height * 4` bytes and
     set up the device and the duplication. The buffers are resized whether
     or not the set-up succeeds.
     */
    method Initialize(width: int, height: int, fps: int, deviceCreated: bool, duplicationCreated: bool)
      returns (ok: bool)
      requires Valid()
      requires 0 <= width && 0 <= height && width * height * 4 <= IntMax
      modifies this`frameWidth, this`frameHeight, this`targetFps, this`frameSize,
               this`frameBuffer, this`previousFrameBuffer,
               this`hasDevice, this`hasContext, this`hasDuplication, this`frameHeld
      ensures Valid()
      ensures frameWidth == width && frameHeight == height && targetFps == fps
      ensures frameSize == width * height * 4
      ensures frameBuffer == Resize(old(frameBuffer), frameSize)
      ensures previousFrameBuffer == Resize(old(previousFrameBuffer), frameSize)
      ensures ok == (deviceCreated && duplicationCreated)
      ensures hasDevice == deviceCreated && hasContext == deviceCreated
      ensures hasDuplication == (if deviceCreated then duplicationCreated else old(hasDuplication))
      ensures frameHeld == (old(frameHeld) && !deviceCreated)
    {
      frameWidth := width;
      frameHeight := height;
      targetFps := fps;
      frameSize := frameWidth * frameHeight * 4;
      previousFrameBuffer := Resize(previousFrameBuffer, frameSize);
      frameBuffer := Resize(frameBuffer, frameSize);
      ok := InitializeDirectX(deviceCreated, duplicationCreated);
    }

    /**
     Create the device and its context, then duplicate the first output. A
     new duplication replaces the old one, and with it any frame it held.
     */
    method InitializeDirectX(deviceCreated: bool, duplicationCreated: bool) returns (ok: bool)
      modifies this`hasDevice, this`hasContext, this`hasDuplication, this`frameHeld
      ensures ok == (deviceCreated && duplicationCreated)
      ensures hasDevice == deviceCreated && hasContext == deviceCreated
      ensures hasDuplication == (if deviceCreated then duplicationCreated else old(hasDuplication))
      ensures frameHeld == (old(frameHeld) && !deviceCreated)
    {
      hasDevice, hasContext := deviceCreated, deviceCreated;
      if !deviceCreated {
        return false;
      }
      hasDuplication := duplicationCreated;
      frameHeld := false;
      ok := duplicationCreated;
    }

    /** A no-op while capturing; otherwise store the callback and start one capture thread. */
    method Start(callback: CallbackId)
      requires Valid()
      modifies this`capturing, this`threadJoinable, this`threadsStarted, this`frameCallback
      ensures Valid() && capturing
      ensures old(capturing) ==>
                frameCallback == old(frameCallback) && threadsStarted == old(threadsStarted)
      ensures !old(capturing) ==>
                frameCallback == Some(callback) && threadsStarted == old(threadsStarted) + 1
    {
      if capturing {
        return;
      }
      frameCallback := Some(callback);
      capturing := true;
      threadJoinable := true;
      threadsStarted := threadsStarted + 1;
    }

    predicate Stopped()
      reads this
    {
      !capturing && !threadJoinable && !hasDevice && !hasContext && !hasDuplication && !frameHeld
    }

    /**
     Clear the flag, join the capture thread and reset the three handles; the
     duplication takes any held frame with it. Stopping twice changes nothing
     the second time.
     */
    method Stop()
      requires Valid()
      modifies this`capturing, this`threadJoinable, this`hasDevice, this`hasContext,
               this`hasDuplication, this`frameHeld
      ensures Valid() && Stopped()
      ensures old(Stopped()) ==> unchanged(this)
    {
      capturing := false;
      if threadJoinable {
        threadJoinable := false;
      }
      hasDuplication := false;
      hasContext := false;
      hasDevice := false;
      frameHeld := false;
    }

    method IsCapturing() returns (c: bool)
      ensures c == capturing
    {
      c := capturing;
    }

    /**
     `AcquireFrame` together with the frame it acquires on S_OK. It calls into
     the duplication, which must exist.
     */
    method AcquireFrame(offered: HResult) returns (code: int)
      requires hasDuplication
      modifies this`frameHeld
      ensures code == AcquireCode(AcquireNextFrame(old(frameHeld), offered))
      ensures frameHeld == (old(frameHeld) || code == 1)
    {
      code := AcquireCode(AcquireNextFrame(frameHeld, offered));
      if code == 1 {
        frameHeld := true;
      }
    }

    /**
     Copy the held frame into `frameBuffer` row by row, each row of
     `frameWidth * 4` bytes taken from offset `y * rowPitch` of the mapped
     texture, and release it. As written, a failed staging texture or map
     returns with the frame still held. The device, its context and the
     duplication must exist.
     */
    method MapFrameToCpu(m: MapOutcome) returns (ok: bool)
      requires Valid() && hasDevice && hasContext && hasDuplication
      requires m.Mapped? ==> Covers(m.src, m.rowPitch, frameWidth * 4, frameHeight)
      modifies this`frameBuffer, this`frameHeld
      ensures Valid()
      ensures (ok, Snapshot()) == MapFrame(old(Snapshot()), m, false)
    {
      match m {
        case StagingFailed =>
          return false;
        case MapFailed =>
          return false;
        case Mapped(src, pitch) =>
          assert frameSize == frameHeight * (frameWidth * 4);
          frameBuffer := CopyRows(frameBuffer, src, pitch, frameWidth, frameHeight);
          MulIsProduct(frameHeight, frameWidth * 4);
          frameHeld := false;
          return true;
      }
    }

    /**
     One pass of `CaptureLoop`'s body: acquire, then skip, copy or reuse,
     then give a task to the pool and keep the frame as the previous one.
     The cycle is the one the code has, `CycleAsWritten`; the duplication
     must exist, and the device and its context too when a frame is acquired.
     */
    method CaptureCycle(inp: CycleInput) returns (dispatched: bool)
      requires Valid() && Fits(inp, frameWidth, frameHeight)
      requires hasDuplication && (AcquireNextFrame(frameHeld, inp.hr) == Ok ==> hasDevice && hasContext)
      modifies this`frameBuffer, this`previousFrameBuffer, this`frameHeld, this`taskQueue
      ensures Valid()
      ensures Snapshot() == CycleAsWritten(old(Snapshot()), inp)
      ensures dispatched <==> taskQueue != old(taskQueue)
    {
      var result := AcquireFrame(inp.hr);
      if result == 0 || !StillCapturing(inp, AcquireCheck) {
        return false;
      }
      if result != NoFrameChange {
        var mapped := MapFrameToCpu(inp.transfer);
        if !mapped || !StillCapturing(inp, MapCheck) {
          return false;
        }
      } else {
        frameBuffer := previousFrameBuffer;
      }
      taskQueue := taskQueue + [DispatchTask(inp.timeStamp)];
      previousFrameBuffer := frameBuffer;
      return true;
    }

    /**
     `CaptureLoop`: the cycles it runs until a check sees the capture stopped,
     each as written, with the three handles in place.
     */
    method CaptureLoop(cycles: seq<CycleInput>)
      requires Valid() && AllFit(cycles, frameWidth, frameHeight) && LoopOrder(cycles)
      requires hasDevice && hasContext && hasDuplication
      modifies this`frameBuffer, this`previousFrameBuffer, this`frameHeld, this`taskQueue
      ensures Valid()
      ensures Snapshot() == Run(old(Snapshot()), cycles, false)
    {
      var i := 0;
      while i < |cycles|
        invariant 0 <= i <= |cycles|
        invariant Valid() && frameWidth == old(frameWidth) && frameHeight == old(frameHeight)
        invariant hasDevice && hasContext && hasDuplication
        invariant Snapshot() == Run(old(Snapshot()), cycles[..i], false)
      {
        assert cycles[..i + 1][..i] == cycles[..i];
        var _ := CaptureCycle(cycles[i]);
        i := i + 1;
      }
      assert cycles[..i] == cycles;
    }
  }
}
