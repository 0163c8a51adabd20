/**
 CaptureDLL.cpp, the earlier revision of the capture loop, which keeps its
 state in globals: the capture flag, the thread, three Direct3D/DXGI
 handles and one frame buffer of 1920 x 1080 pixels that is never resized.
 The loop calls the consumer's callback itself, synchronously, once per
 frame.

 As in CaptureManager.cpp the loop's reads of `capturing` are inputs. A
 cycle reads it up to three times (after acquiring, after mapping, before
 the callback); `stoppedFrom` is the first of these checks that reads false.
 */
module CaptureDll {
  import opened CaptureTypes
  import opened FrameCopy

  const FrameWidth: nat := 1920
  const FrameHeight: nat := 1080
  /** `frameWidth * 4` bytes per row and `frameWidth * frameHeight * 4` bytes per frame. */
  const RowBytes: nat := FrameWidth * 4
  const FrameBytes: nat := FrameHeight * RowBytes

  /** `AcquireFrame` of CaptureDLL.cpp: the HRESULT switch reduced to a bool. */
  function AcquireSucceeded(hr: HResult): (acquired: bool)
    ensures acquired <==> hr == Ok
  {
    if hr == DxgiErrorAccessLost then false
    else if hr == DxgiErrorWaitTimeout then false
    else if hr == DxgiErrorInvalidCall then false
    else if hr == Ok then true
    else false
  }

  /** How the consumer's callback ends: it returns, or throws. */
  datatype CallbackOutcome = Returned | ThrewStdException | ThrewOther

  /**
   What the callback is given: the `FrameData` fields the loop sets, with
   `pixels` the contents of the frame buffer that `data` points to during
   the call. The loop leaves `frameRate` and `dataSize` unset.
   */
  datatype Delivery = Delivery(width: int, height: int, timeStamp: int, pixels: seq<Byte>)

  /** The checks of `capturing` within one cycle. */
  const AcquireCheck: nat := 1
  const MapCheck: nat := 2
  const CallbackCheck: nat := 3

  /**
   What one cycle meets: the epoch milliseconds at its start, the desktop's
   answer to `AcquireNextFrame`, the outcome of the GPU-to-CPU transfer, the
   first check that sees the capture stopped and how the callback ends.
   */
  datatype CycleInput = CycleInput(startEpochMs: int, hr: HResult, transfer: MapOutcome,
                                   stoppedFrom: nat, callback: CallbackOutcome)

  predicate StillCapturing(inp: CycleInput, check: nat)
  {
    check < inp.stoppedFrom
  }

  predicate Fits(inp: CycleInput)
  {
    inp.transfer.Mapped? ==> Covers(inp.transfer.src, inp.transfer.rowPitch, RowBytes, FrameHeight)
  }

  /**
   How a cycle ends: back to `while (capturing)`; the `break` before the
   callback; `std::terminate`, because an exception that is not a
   `std::exception` escapes the thread; or a call of `MapFrameToCPU` with no
   acquired frame, which dereferences an empty `desktopResource`.
   */
  datatype Step = Next | Break | Terminate | NullResource

  /**
   The globals a cycle touches: the frame buffer, whether a duplicated frame
   is held, and the calls of the callback so far.
   */
  datatype Globals = Globals(frameBuffer: seq<Byte>, held: bool, deliveries: seq<Delivery>)

  /** `MapFrameToCPU` on a held frame: every one of its exits releases the frame. */
  function MapFrame(g: Globals, m: MapOutcome): (r: (bool, Globals))
    requires |g.frameBuffer| == FrameBytes
    requires m.Mapped? ==> Covers(m.src, m.rowPitch, RowBytes, FrameHeight)
    ensures |r.1.frameBuffer| == FrameBytes && !r.1.held && r.1.deliveries == g.deliveries
    ensures r.0 <==> m.Mapped?
    ensures r.1.frameBuffer == if r.0 then Packed(m.src, m.rowPitch, RowBytes, FrameHeight) else g.frameBuffer
  {
    match m
    case Mapped(src, pitch) =>
      MulIsProduct(FrameHeight, RowBytes);
      (true, g.(frameBuffer := Packed(src, pitch, RowBytes, FrameHeight), held := false))
    case _ => (false, g.(held := false))
  }

  /** The cycle from `MapFrameToCPU` on, once a frame has been acquired. */
  function AfterAcquire(g: Globals, inp: CycleInput): (r: (Globals, Step))
    requires |g.frameBuffer| == FrameBytes && Fits(inp)
  {
    var (ok, mapped) := MapFrame(g, inp.transfer);
    if !ok && StillCapturing(inp, MapCheck) then (mapped, Next)
    else if !StillCapturing(inp, CallbackCheck) then (mapped, Break)
    else
      var frame := Delivery(FrameWidth, FrameHeight, inp.startEpochMs, mapped.frameBuffer);
      (mapped.(deliveries := mapped.deliveries + [frame]),
       if inp.callback == ThrewOther then Terminate else Next)
  }

  /**
   One cycle exactly as CaptureDLL.cpp has it. A failed acquisition skips
   the cycle only while capturing is still on; once the flag reads false the
   code falls through to `MapFrameToCPU` with nothing acquired.
   */
  function CycleAsWritten(g: Globals, inp: CycleInput): (r: (Globals, Step))
    requires |g.frameBuffer| == FrameBytes && Fits(inp)
    ensures |r.0.frameBuffer| == FrameBytes
    ensures !AcquireSucceeded(AcquireNextFrame(g.held, inp.hr)) && StillCapturing(inp, AcquireCheck) ==>
              r == (g, Next)
    ensures r.1 == NullResource <==>
              !AcquireSucceeded(AcquireNextFrame(g.held, inp.hr)) && !StillCapturing(inp, AcquireCheck)
  {
    var acquired := AcquireSucceeded(AcquireNextFrame(g.held, inp.hr));
    if !acquired && StillCapturing(inp, AcquireCheck) then (g, Next)
    else if !acquired then (g, NullResource)
    else AfterAcquire(g.(held := true), inp)
  }

  /** One cycle with a failed acquisition always skipping the cycle. */
  function Cycle(g: Globals, inp: CycleInput): (r: (Globals, Step))
    requires |g.frameBuffer| == FrameBytes && Fits(inp)
    ensures |r.0.frameBuffer| == FrameBytes && r.1 != NullResource
    // a failed acquisition skips the cycle and changes nothing
    ensures !AcquireSucceeded(AcquireNextFrame(g.held, inp.hr)) ==> r == (g, Next)
    // the frame is released on every exit
    ensures !g.held ==> !r.0.held
    // the callback is called at most once, with the configured size, the cycle's
    // start time and the frame just copied
    ensures r.0.deliveries == g.deliveries
            || r.0.deliveries == g.deliveries + [Delivery(FrameWidth, FrameHeight, inp.startEpochMs, r.0.frameBuffer)]
    ensures r.0.deliveries != g.deliveries <==>
              && AcquireSucceeded(AcquireNextFrame(g.held, inp.hr))
              && inp.transfer.Mapped? && StillCapturing(inp, CallbackCheck)
    ensures r.0.deliveries != g.deliveries ==>
              r.0.frameBuffer == Packed(inp.transfer.src, inp.transfer.rowPitch, RowBytes, FrameHeight)
    // a failed transfer writes nothing
    ensures !inp.transfer.Mapped? ==> r.0.frameBuffer == g.frameBuffer
    // a std::exception from the callback is caught and the loop goes on
    ensures r.1 == Terminate <==> r.0.deliveries != g.deliveries && inp.callback == ThrewOther
    ensures r.1 == Break ==> !StillCapturing(inp, CallbackCheck)
  {
    if !AcquireSucceeded(AcquireNextFrame(g.held, inp.hr)) then (g, Next)
    else AfterAcquire(g.(held := true), inp)
  }

  /**
   The two differ exactly when the flag reads false just after a failed
   acquisition; otherwise the correction changes nothing.
   */
  lemma CycleAgreesUnlessStoppedAfterFailure(g: Globals, inp: CycleInput)
    requires |g.frameBuffer| == FrameBytes && Fits(inp)
    ensures CycleAsWritten(g, inp) != Cycle(g, inp) <==>
              !AcquireSucceeded(AcquireNextFrame(g.held, inp.hr)) && !StillCapturing(inp, AcquireCheck)
  {
  }

  /**
   On a static screen `AcquireNextFrame` times out; if `StopCapture` clears
   the flag meanwhile, the cycle as written goes on to `MapFrameToCPU` with
   nothing acquired.
   */
  lemma TimeoutAfterStopReachesMap(g: Globals, inp: CycleInput)
    requires |g.frameBuffer| == FrameBytes && !g.held && Fits(inp)
    requires inp.hr == DxgiErrorWaitTimeout && inp.stoppedFrom == AcquireCheck
    ensures CycleAsWritten(g, inp).1 == NullResource
    ensures Cycle(g, inp) == (g, Next)
  {
  }

  predicate AllFit(ins: seq<CycleInput>)
  {
    forall i :: 0 <= i < |ins| ==> Fits(ins[i])
  }

  /** A cycle in which every check read true, so that the loop goes round again. */
  predicate RanThrough(inp: CycleInput)
  {
    StillCapturing(inp, CallbackCheck)
  }

  /**
   Once the flag reads false it stays false until the thread has exited, so
   the loop starts another cycle only after one in which it read true at
   every check. Runs of cycles that break this order are not ruled out by
   `RunLoop` and its lemmas, which hold for every sequence of inputs.
   */
  predicate LoopOrder(ins: seq<CycleInput>)
  {
    forall i :: 0 <= i < |ins| - 1 ==> RanThrough(ins[i])
  }

  /** One cycle as written or as corrected. */
  function CycleWith(g: Globals, inp: CycleInput, asWritten: bool): (r: (Globals, Step))
    requires |g.frameBuffer| == FrameBytes && Fits(inp)
    ensures |r.0.frameBuffer| == FrameBytes
  {
    if asWritten then CycleAsWritten(g, inp) else Cycle(g, inp)
  }

  /**
   The cycles the capture thread starts, in order, each as written or as
   corrected. The thread leaves the loop at the first cycle that does not
   end in `Next`; a cycle with nothing after it stands for the check at the
   head of the loop reading false.
   */
  function RunLoop(g: Globals, ins: seq<CycleInput>, asWritten: bool): (r: (Globals, Step))
    requires |g.frameBuffer| == FrameBytes && AllFit(ins)
    ensures |r.0.frameBuffer| == FrameBytes
    decreases |ins|
  {
    if ins == [] then (g, Next)
    else
      var (h, step) := CycleWith(g, ins[0], asWritten);
      if step != Next then (h, step) else RunLoop(h, ins[1..], asWritten)
  }

  /** The run from cycle `i` on: that cycle, then the rest unless it ended the loop. */
  lemma RunLoopFrom(g: Globals, ins: seq<CycleInput>, i: nat, asWritten: bool)
    requires |g.frameBuffer| == FrameBytes && AllFit(ins) && i < |ins|
    ensures AllFit(ins[i..]) && AllFit(ins[i + 1..])
    ensures var (h, step) := CycleWith(g, ins[i], asWritten);
            RunLoop(g, ins[i..], asWritten)
              == if step != Next then (h, step) else RunLoop(h, ins[i + 1..], asWritten)
  {
    assert ins[i..][0] == ins[i];
    assert ins[i..][1..] == ins[i + 1..];
  }

  /**
   Over a whole run of the corrected loop the frame is never left held and
   `MapFrameToCPU` never meets an empty resource; earlier calls of the
   callback are kept and at most one is added per cycle.
   */
  lemma {:induction false} RunLoopIsSafe(g: Globals, ins: seq<CycleInput>)
    requires |g.frameBuffer| == FrameBytes && !g.held && AllFit(ins)
    ensures var r := RunLoop(g, ins, false);
            && !r.0.held && r.1 != NullResource
            && |g.deliveries| <= |r.0.deliveries| <= |g.deliveries| + |ins|
            && r.0.deliveries[..|g.deliveries|] == g.deliveries
    decreases |ins|
  {
    if ins != [] {
      var (h, step) := Cycle(g, ins[0]);
      assert RunLoop(g, ins, false) == if step != Next then (h, step) else RunLoop(h, ins[1..], false);
      assert |g.deliveries| <= |h.deliveries| <= |g.deliveries| + 1;
      assert h.deliveries[..|g.deliveries|] == g.deliveries;
      if step == Next {
        assert AllFit(ins[1..]);
        RunLoopIsSafe(h, ins[1..]);
        PrefixOfPrefix(g.deliveries, h.deliveries, RunLoop(h, ins[1..], false).0.deliveries);
      }
    }
  }

  lemma PrefixOfPrefix<T>(a: seq<T>, b: seq<T>, c: seq<T>)
    requires |a| <= |b| <= |c| && b[..|a|] == a && c[..|b|] == b
    ensures c[..|a|] == a
  {
    assert c[..|a|] == c[..|b|][..|a|];
  }

  /**
   A run as written that does not end on the empty resource is the
   corrected run: the two loops part only where the one as written crashes.
   */
  lemma {:induction false} RunLoopAgreesUnlessNullResource(g: Globals, ins: seq<CycleInput>)
    requires |g.frameBuffer| == FrameBytes && AllFit(ins)
    ensures RunLoop(g, ins, true).1 != NullResource ==> RunLoop(g, ins, true) == RunLoop(g, ins, false)
    decreases |ins|
  {
    if ins != [] {
      CycleAgreesUnlessStoppedAfterFailure(g, ins[0]);
      var (h, step) := CycleAsWritten(g, ins[0]);
      if step == Next {
        assert AllFit(ins[1..]);
        RunLoopAgreesUnlessNullResource(h, ins[1..]);
      }
    }
  }

  /**
   As long as the callback throws nothing but `std::exception`s, the capture
   thread is never terminated.
   */
  lemma {:induction false} RunLoopNeverTerminates(g: Globals, ins: seq<CycleInput>, asWritten: bool)
    requires |g.frameBuffer| == FrameBytes && AllFit(ins)
    requires forall i :: 0 <= i < |ins| ==> ins[i].callback != ThrewOther
    ensures RunLoop(g, ins, asWritten).1 != Terminate
    decreases |ins|
  {
    if ins != [] {
      var (h, step) := CycleWith(g, ins[0], asWritten);
      if step == Next {
        assert AllFit(ins[1..]);
        assert forall i :: 0 <= i < |ins[1..]| ==> ins[1..][i] == ins[i + 1];
        RunLoopNeverTerminates(h, ins[1..], asWritten);
      }
    }
  }

  /** The DLL's globals. */
  class CaptureGlobals {
    var capturing: bool
    /** `captureThread.joinable()` */
    var threadJoinable: bool
    /** How many capture threads were created. */
    ghost var threadsStarted: nat
    /** The callback the capture thread was started with. */
    var loopCallback: Option<CallbackId>
    var hasDevice: bool
    var hasContext: bool
    var hasDuplication: bool
    /** A frame acquired from the duplication and not yet released. */
    var frameHeld: bool
    const frameBuffer: array<Byte>
    /** The calls of the callback, oldest first. */
    var deliveries: seq<Delivery>

    ghost predicate Valid()
      reads this
    {
      frameBuffer.Length == FrameBytes && threadJoinable == capturing
    }

    ghost function Snapshot(): Globals
      reads this, frameBuffer
    {
      Globals(frameBuffer[..], frameHeld, deliveries)
    }

    /** The globals at load time: not capturing, no handles, a zeroed buffer. */
    constructor ()
      ensures Valid() && fresh(frameBuffer)
      ensures forall i :: 0 <= i < frameBuffer.Length ==> frameBuffer[i] == 0
      ensures !capturing && threadsStarted == 0 && loopCallback == None
      ensures !hasDevice && !hasContext && !hasDuplication && !frameHeld && deliveries == []
    {
      capturing := false;
      threadJoinable := false;
      threadsStarted := 0;
      loopCallback := None;
      hasDevice, hasContext, hasDuplication, frameHeld := false, false, false, false;
      frameBuffer := new Byte[FrameBytes](_ => 0);
      deliveries := [];
    }

    /** `AcquireFrame`, together with the frame it acquires on S_OK, from the duplication. */
    method AcquireFrame(offered: HResult) returns (ok: bool)
      requires hasDuplication
      modifies this`frameHeld
      ensures ok == AcquireSucceeded(AcquireNextFrame(old(frameHeld), offered))
      ensures frameHeld == (old(frameHeld) || ok)
    {
      ok := AcquireSucceeded(AcquireNextFrame(frameHeld, offered));
      if ok {
        frameHeld := true;
      }
    }

    /**
     Copy the held frame into `frameBuffer` and release it: after a failed
     staging texture, after a failed map, and after the copy. It uses the
     device, its context and the duplication.
     */
    method MapFrameToCpu(m: MapOutcome) returns (ok: bool)
      requires Valid() && frameHeld && hasDevice && hasContext && hasDuplication
      requires m.Mapped? ==> Covers(m.src, m.rowPitch, RowBytes, FrameHeight)
      modifies this`frameHeld, frameBuffer
      ensures (ok, Snapshot()) == MapFrame(old(Snapshot()), m)
    {
      match m {
        case StagingFailed =>
          frameHeld := false;
          return false;
        case MapFailed =>
          frameHeld := false;
          return false;
        case Mapped(src, pitch) =>
          CopyRows(src, pitch);
          frameHeld := false;
          return true;
      }
    }

    /** The row loop of `MapFrameToCPU`: each row is one `memcpy` of `frameWidth * 4` bytes. */
    method CopyRows(src: seq<Byte>, pitch: nat)
      requires Valid() && Covers(src, pitch, RowBytes, FrameHeight)
      modifies frameBuffer
      ensures frameBuffer[..] == Packed(src, pitch, RowBytes, FrameHeight)
    {
      var y := 0;
      while y < FrameHeight
        invariant 0 <= y <= FrameHeight && Covers(src, pitch, RowBytes, y)
        invariant frameBuffer[..y * RowBytes] == Packed(src, pitch, RowBytes, y)
      {
        CoversRow(src, pitch, RowBytes, FrameHeight, y);
        PackedNext(src, pitch, RowBytes, y);
        CopyRow(src, pitch, y);
        MulIsProduct(y + 1, RowBytes);
        assert frameBuffer[..y * RowBytes + RowBytes]
               == frameBuffer[..y * RowBytes] + frameBuffer[y * RowBytes..y * RowBytes + RowBytes];
        y := y + 1;
      }
    }

    /**
     One `memcpy` of the row loop: row `y` of the source lands at offset
     `y * frameWidth * 4` and no other byte of the buffer changes.
     */
    method CopyRow(src: seq<Byte>, pitch: nat, y: nat)
      requires Valid() && y < FrameHeight && Mul(y, pitch) + RowBytes <= |src|
      modifies frameBuffer
      ensures frameBuffer[..y * RowBytes] == old(frameBuffer[..y * RowBytes])
      ensures frameBuffer[y * RowBytes..y * RowBytes + RowBytes] == Row(src, pitch, RowBytes, y)
      ensures frameBuffer[y * RowBytes + RowBytes..] == old(frameBuffer[y * RowBytes + RowBytes..])
    {
      MulIsProduct(y, pitch);
      var dst := y * RowBytes;
      var off := y * pitch;
      forall i | 0 <= i < RowBytes {
        frameBuffer[dst + i] := src[off + i];
      }
      ghost var row := Row(src, pitch, RowBytes, y);
      assert frameBuffer[dst..dst + RowBytes] == row by {
        forall k | 0 <= k < RowBytes
          ensures frameBuffer[dst..dst + RowBytes][k] == row[k]
        {
          assert row[k] == src[off + k];
        }
      }
    }

    /**
     One pass of `CaptureLoop`'s body as written: a failed acquisition skips
     the cycle only while capturing; otherwise the cycle goes on to
     `MapFrameToCPU`, which dereferences the empty resource. The duplication
     must exist, and the device and its context too when a frame is acquired.
     */
    method CaptureCycle(inp: CycleInput) returns (step: Step)
      requires Valid() && Fits(inp)
      requires hasDuplication && (AcquireNextFrame(frameHeld, inp.hr) == Ok ==> hasDevice && hasContext)
      modifies this`frameHeld, this`deliveries, frameBuffer
      ensures (Snapshot(), step) == CycleAsWritten(old(Snapshot()), inp)
    {
      var acquired := AcquireFrame(inp.hr);
      if !acquired && StillCapturing(inp, AcquireCheck) {
        return Next;
      }
      if !acquired {
        return NullResource;
      }
      var mapped := MapFrameToCpu(inp.transfer);
      if !mapped && StillCapturing(inp, MapCheck) {
        return Next;
      }
      if !StillCapturing(inp, CallbackCheck) {
        return Break;
      }
      deliveries := deliveries + [Delivery(FrameWidth, FrameHeight, inp.startEpochMs, frameBuffer[..])];
      if inp.callback == ThrewOther {
        return Terminate;
      }
      return Next;
    }

    /**
     `CaptureLoop`: the cycles the thread starts, each as written, until one
     of them ends the loop, with the three handles in place.
     */
    method CaptureLoop(cycles: seq<CycleInput>) returns (step: Step)
      requires Valid() && AllFit(cycles) && LoopOrder(cycles) && hasDevice && hasContext && hasDuplication
      modifies this`frameHeld, this`deliveries, frameBuffer
      ensures (Snapshot(), step) == RunLoop(old(Snapshot()), cycles, true)
    {
      var i := 0;
      while i < |cycles|
        invariant 0 <= i <= |cycles| && Valid() && hasDevice && hasContext && hasDuplication
        invariant RunLoop(Snapshot(), cycles[i..], true) == RunLoop(old(Snapshot()), cycles, true)
      {
        ghost var before := Snapshot();
        step := CaptureCycle(cycles[i]);
        RunLoopFrom(before, cycles, i, true);
        if step != Next {
          return;
        }
        i := i + 1;
      }
      assert cycles[i..] == [];
      step := Next;
    }

    /**
     `InitializeCapture`: create the device and its context, then duplicate
     the first output; a new duplication replaces the old one with any frame
     it held.
     */
    method InitializeCapture(deviceCreated: bool, duplicationCreated: bool) returns (ok: bool)
      modifies this`hasDevice, this`hasContext, this`hasDuplication, this`frameHeld
      ensures ok == (deviceCreated && duplicationCreated)
      ensures hasDevice == deviceCreated && hasContext == deviceCreated
      ensures hasDuplication == (if deviceCreated then duplicationCreated else old(hasDuplication))
      ensures frameHeld == (old(frameHeld) && !deviceCreated)
    {
      hasDevice, hasContext := deviceCreated, deviceCreated;
      if !deviceCreated {
        return false;
      }
      hasDuplication := duplicationCreated;
      frameHeld := false;
      ok := duplicationCreated;
    }

    /**
     Nothing while capturing. Otherwise initialize; on failure capturing
     stays off and no thread is created, on success one capture thread is
     started with the callback.
     */
    method StartCapture(callback: CallbackId, deviceCreated: bool, duplicationCreated: bool)
      requires Valid()
      modifies this`capturing, this`threadJoinable, this`threadsStarted, this`loopCallback,
               this`hasDevice, this`hasContext, this`hasDuplication, this`frameHeld
      ensures Valid()
      ensures old(capturing) ==> unchanged(this)
      ensures !old(capturing) ==>
                && capturing == (deviceCreated && duplicationCreated)
                && hasDevice == deviceCreated && hasContext == deviceCreated
                && hasDuplication == (if deviceCreated then duplicationCreated else old(hasDuplication))
                && frameHeld == (old(frameHeld) && !deviceCreated)
      ensures !old(capturing) && capturing ==>
                loopCallback == Some(callback) && threadsStarted == old(threadsStarted) + 1
      ensures !capturing ==>
                loopCallback == old(loopCallback) && threadsStarted == old(threadsStarted)
    {
      if !capturing {
        var initialized := InitializeCapture(deviceCreated, duplicationCreated);
        if !initialized {
          capturing := false;
          return;
        }
        capturing := true;
        threadJoinable := true;
        threadsStarted := threadsStarted + 1;
        loopCallback := Some(callback);
      }
    }

    predicate Stopped()
      reads this
    {
      !capturing && !threadJoinable && !hasDevice && !hasContext && !hasDuplication && !frameHeld
    }

    /**
     Clear the flag, join the thread and drop each handle that is present;
     the duplication takes any held frame with it. Stopping twice changes
     nothing the second time.
     */
    method StopCapture()
      requires Valid()
      modifies this`capturing, this`threadJoinable, this`hasDevice, this`hasContext,
               this`hasDuplication, this`frameHeld
      ensures Valid() && Stopped()
      ensures old(Stopped()) ==> unchanged(this)
    {
      capturing := false;
      if threadJoinable {
        threadJoinable := false;
      }
      if hasDuplication {
        hasDuplication := false;
      }
      if hasContext {
        hasContext := false;
      }
      if hasDevice {
        hasDevice := false;
      }
      frameHeld := false;
    }
  }
}
