# ScreenCaptureLib capture core in Dafny

ScreenCaptureLib captures the Windows desktop through DXGI desktop
duplication and hands each frame to a consumer callback. This project
models three parts of it:

- **The `CaptureManager` session** (`capture_manager.dfy`, module `Manager`).
  - Fields: the capture flag, the Direct3D/DXGI handles, the frame sizes, the
    current and previous frame buffers, and the thread pool's queue.
  - `Initialize`, `Start`, `Stop`, `IsCapturing`, the `AcquireFrame`
    classification, `MapFrameToCPU` with its row copy, one cycle of
    `CaptureLoop`, and the loop itself.
  - One loop cycle is also stated on values (`Cycle`, `Run`); the class's
    methods are proved against those functions.
- **The global-state revision in `CaptureDLL.cpp`** (`capture_dll.dfy`, module
  `CaptureDll`).
  - A fixed 1920 x 1080 x 4 frame buffer held as an `array`.
  - The boolean `AcquireFrame`, and `MapFrameToCPU`, which releases the
    frame on each of its exits.
  - One loop cycle and the loop, which calls the callback synchronously and
    contains its `std::exception`s.
  - `StartCapture` and `StopCapture`.
- **`SaveBitmap` of `WGCCapture.cpp`** (`bitmap.dfy`, module `Bitmap`). It writes
  a 14-byte BITMAPFILEHEADER, a 40-byte BITMAPINFOHEADER and the pixels of
  a 32-bit top-down BMP.
  - Fields are written little-endian.
  - A BMP reader is defined beside it; a saved file is proved to read back
    as the image that was saved.

Shared pieces:
- `capture_types.dfy` holds bytes, HRESULT codes and the outcome of the
  GPU-to-CPU transfer.
- `frame_copy.dfy` holds the pitched-to-packed row copy as a value (`Packed`),
  with the index lemma and the padding lemma.

## Modelling decisions

- **The Direct3D/DXGI calls are inputs.**
  - A cycle's input gives the HRESULT the desktop offers to
    `AcquireNextFrame` and the transfer outcome: staging texture failed,
    map failed, or the mapped bytes with their row pitch.
  - Device and duplication creation are booleans.
  - `AcquireNextFrame` answers DXGI_ERROR_INVALID_CALL while the previous
    frame has not been released (`CaptureTypes.AcquireNextFrame`). This is
    the duplication API's documented contract; the desktop has no say in it.
- **The capture flag is read by the loop and cleared by another thread.**
  - Each read inside a cycle is a numbered check. The input `stoppedFrom`
    names the first check that reads false.
  - Once cleared the flag stays clear: `Stop` joins the thread under the
    mutex that `Start` takes.
- **The thread pool is the sequence of tasks it was given.**
  - The task lambda copies only the timestamp. It reads the buffer, the
    sizes and the callback through `this` when it runs, so a task records
    only its timestamp. Nothing is claimed about which buffer contents a
    task sees.
- **The DLL's callback is an outcome**: it returns, throws a
  `std::exception`, or throws something else.
  - Each call is recorded as a `Delivery`: the `FrameData` fields the loop
    sets, plus the buffer contents during the call.
- **Access loss ends neither loop.**
  - `CaptureManager::AcquireFrame` maps DXGI_ERROR_ACCESS_LOST to 0
    (CaptureManager.cpp:118) and the loop goes on.
  - `CaptureDLL`'s `AcquireFrame` returns false (CaptureDLL.cpp:92) and the
    loop goes on while the flag is set.
- **There is no frame delta or compression.** The diff and compression
  functions are declared at CaptureManager.h:30-31 and never defined or
  called, so the model has none.
- **The classes follow the code as written; the value functions state both
  versions.** Where the code has a defect (see Findings), the class method
  is proved against the as-written function (`CycleAsWritten`, `Run(_, _,
  false)`, `RunLoop(_, _, true)`). The corrected function carries the
  intended properties, and a lemma states exactly where the two differ.

## Model

| member | source | states |
|---|---|---|
| FrameCopy.Resize | CaptureManager.cpp:28-29 | `resize(n, 0)`: the result has length n, keeps the old bytes up to n, and every appended byte is 0 |
| FrameCopy.Packed | CaptureManager.cpp:143-146 | the packed copy of `rows` pitched rows is `rows` times `rowBytes` bytes long (as `Mul`, the repeated sum that `MulIsProduct` equates with the product) |
| FrameCopy.PackedAt | CaptureManager.cpp:144-146 | for every row y and byte x of a row, packed byte `y*rowBytes + x` is source byte `y*pitch + x`, both in range |
| FrameCopy.Splice | CaptureManager.cpp:145 | one `memcpy` into the frame vector: the length is unchanged, the bytes from `at` on become the row, and every byte before and after it is kept |
| FrameCopy.CopyRows | CaptureManager.cpp:143-146 | the row loop on the frame vector: `height` copies of `width*4` bytes from offset `y*pitch` to offset `y*width*4` leave the vector equal to the packed copy |
| FrameCopy.PackedIgnoresPadding | CaptureManager.cpp:145 | source bytes past `width*4` in a row are never copied: changing one leaves the packed frame unchanged |
| Manager.AcquireCode | CaptureManager.cpp:115-124 | S_OK gives 1, WAIT_TIMEOUT gives 1557, every other HRESULT (access lost, invalid call, others) gives 0; each an if-and-only-if |
| Manager.MapFrame | CaptureManager.cpp:126-151 | success iff the transfer mapped; success packs every row into the current buffer and releases the frame; a failure writes no byte and, as written, keeps the frame held |
| Manager.CycleWith | CaptureManager.cpp:80-113 | either version of a cycle keeps both buffers at `width*height*4` bytes; the other properties are stated on `Cycle` and carried to the as-written cycle by `CycleAgreesUnlessTransferFails` |
| Manager.Cycle | CaptureManager.cpp:81-112 | at most one task per cycle, stamped with the cycle's time; a task iff the cycle dispatches; code 0 or a stop leaves buffers and queue untouched; after a dispatch previous equals current; a timeout reuses the previous frame; a new frame is packed; a failed transfer writes nothing; no frame is left held. The dispatch step, `Dispatch` (CaptureManager.cpp:99-110), is covered here: one task stamped with the cycle's time is appended and the frame becomes the previous one |
| Manager.CycleAgreesUnlessTransferFails | CaptureManager.cpp:126-151 | the as-written and corrected cycles agree in everything but the held flag, and differ exactly when a frame is newly acquired while capturing and its staging texture or map fails |
| Manager.Run | CaptureManager.cpp:80-113 | a run of cycles keeps the session's sizes and buffer lengths |
| Manager.RunDispatchesEveryFrame | CaptureManager.cpp:81-112 | with the frame released on failure, the queue after a run is the old queue followed by one task per dispatching cycle, in order, and no frame stays held |
| Manager.HeldFrameFreezes | CaptureManager.cpp:86-87 | while a frame is held, every cycle is a no-op, because AcquireNextFrame fails with INVALID_CALL |
| Manager.FailedTransferStallsCapture | CaptureManager.cpp:136-141 | as written, a failed staging texture or map leaves the frame held, and every later cycle changes nothing and dispatches nothing |
| Manager.StallExample | CaptureManager.cpp:136 | a failed staging texture followed by a new frame: as written, no task; with release on failure, one task |
| Manager.CaptureManager.constructor | CaptureManager.cpp:13-15 | not capturing, no thread, no handles, empty buffers |
| Manager.CaptureManager.Initialize | CaptureManager.cpp:21-32 | stores the sizes and fps; `frameSize == w*h*4`; both buffers are the old ones resized to `frameSize`, whatever the DirectX set-up returns; the result is that set-up's |
| Manager.CaptureManager.InitializeDirectX | CaptureManager.cpp:34-52 | fails when the device cannot be created; otherwise the result is whether the duplication was created, and the old duplication is replaced |
| Manager.CaptureManager.Start | CaptureManager.cpp:54-61 | while capturing: no new callback and no new thread; otherwise stores the callback, sets the flag and starts one thread |
| Manager.CaptureManager.Stop | CaptureManager.cpp:63-74 | clears the flag, joins the thread and resets the three handles; a second Stop changes nothing |
| Manager.CaptureManager.IsCapturing | CaptureManager.cpp:76-78 | returns the flag |
| Manager.CaptureManager.AcquireFrame | CaptureManager.cpp:115-124 | returns the classification of the DXGI answer; a frame is held afterwards iff it was held or the code is 1 |
| Manager.CaptureManager.MapFrameToCpu | CaptureManager.cpp:126-151 | the new state is `MapFrame` of the old one as written: released after a copy, still held after a failed staging texture or map |
| Manager.CaptureManager.CaptureCycle | CaptureManager.cpp:81-112 | the new session state is `CycleAsWritten` of the old one; returns whether a task was enqueued |
| Manager.CaptureManager.CaptureLoop | CaptureManager.cpp:80-113 | the session after the loop is the as-written `Run` of the session before it |
| CaptureDll.AcquireSucceeded | CaptureDLL.cpp:86-109 | true iff the HRESULT is S_OK |
| CaptureDll.MapFrame | CaptureDLL.cpp:111-157 | success iff the transfer mapped; the frame is released on all three exits; success packs 1080 rows of 7680 bytes; a failure writes nothing |
| CaptureDll.CycleAsWritten | CaptureDLL.cpp:163-208 | a failed acquisition skips the cycle while the flag is set; it reaches `MapFrameToCPU` with nothing acquired iff the flag reads false right after a failed acquisition |
| CaptureDll.Cycle | CaptureDLL.cpp:163-208 | buffer length stays `1920*1080*4`; a failed acquisition changes nothing; the frame is released on every exit; the callback is called at most once, iff a frame was acquired and mapped and the flag still reads true, with width 1920, height 1080, the start time and the packed frame; only a non-`std::exception` terminates. The part after acquisition, `AfterAcquire` (CaptureDLL.cpp:177-198), is covered here and by the `CycleAsWritten` row |
| CaptureDll.CycleAgreesUnlessStoppedAfterFailure | CaptureDLL.cpp:172-174 | the as-written and corrected cycles differ exactly when the flag reads false after a failed acquisition |
| CaptureDll.TimeoutAfterStopReachesMap | CaptureDLL.cpp:172-177 | a timeout with the flag cleared meanwhile sends the as-written cycle into `MapFrameToCPU` with nothing acquired; the corrected cycle skips it |
| CaptureDll.CycleWith | CaptureDLL.cpp:163-208 | either version of a cycle keeps the buffer length |
| CaptureDll.RunLoop | CaptureDLL.cpp:163-208 | a run of cycles, as written or corrected, keeps the buffer length |
| CaptureDll.RunLoopIsSafe | CaptureDLL.cpp:163-208 | for the corrected loop, over a run: no frame left held, never an empty resource, earlier deliveries kept and at most one added per cycle |
| CaptureDll.RunLoopAgreesUnlessNullResource | CaptureDLL.cpp:172-174 | a run of the loop as written that does not end on the empty resource is the corrected run |
| CaptureDll.RunLoopNeverTerminates | CaptureDLL.cpp:193-212 | a run, as written or corrected, whose callback throws only `std::exception`s never terminates the thread |
| CaptureDll.CaptureGlobals.constructor | CaptureDLL.cpp:24-38 | not capturing, no handles, a zeroed 1920 x 1080 x 4 buffer |
| CaptureDll.CaptureGlobals.AcquireFrame | CaptureDLL.cpp:86-109 | returns `AcquireSucceeded` of the DXGI answer; a frame is held afterwards iff it was held or the call succeeded |
| CaptureDll.CaptureGlobals.MapFrameToCpu | CaptureDLL.cpp:111-157 | the new buffer and held flag are `MapFrame` of the old ones |
| CaptureDll.CaptureGlobals.CopyRows | CaptureDLL.cpp:146-151 | the array becomes the packed copy of 1080 rows of 7680 bytes from the pitched source |
| CaptureDll.CaptureGlobals.CopyRow | CaptureDLL.cpp:150 | one `memcpy`: bytes `y*7680` to `y*7680 + 7680` become row y of the source, and every other byte of the array is unchanged |
| CaptureDll.CaptureGlobals.CaptureCycle | CaptureDLL.cpp:163-208 | the new globals and the step are `CycleAsWritten` of the old globals |
| CaptureDll.CaptureGlobals.CaptureLoop | CaptureDLL.cpp:160-213 | for cycles in loop order (every cycle but the last read the flag true at each check), the globals and the last step are the as-written `RunLoop` of the globals before the loop |
| CaptureDll.CaptureGlobals.InitializeCapture | CaptureDLL.cpp:48-84 | false when the device cannot be created; otherwise the result is whether the duplication was created |
| CaptureDll.CaptureGlobals.StartCapture | CaptureDLL.cpp:216-228 | nothing while capturing; if initialization fails the flag stays false and no thread is created; otherwise the flag is set and one thread is started with the callback; once the device is created no frame is held, since the duplication is replaced |
| CaptureDll.CaptureGlobals.StopCapture | CaptureDLL.cpp:231-263 | clears the flag, joins the thread, drops each present handle; a second call changes nothing |
| Bitmap.Le16 | WGCCapture.cpp:181-182 | a WORD is two bytes, low byte first, and reads back as itself |
| Bitmap.Le16OfFromLe16 | WGCCapture.cpp:181-182 | every two bytes are the encoding of the WORD they read as |
| Bitmap.Le32 | WGCCapture.cpp:181-182 | a DWORD is four bytes, lowest first, and reads back as itself |
| Bitmap.Le32OfFromLe32 | WGCCapture.cpp:181-182 | every four bytes are the encoding of the DWORD they read as |
| Bitmap.LongBits | WGCCapture.cpp:175 | a LONG's bits as a DWORD are equal to it modulo 2^32 |
| Bitmap.Le32Signed | WGCCapture.cpp:182 | a LONG is four two's-complement bytes and reads back as itself |
| Bitmap.FileHeaderFor | WGCCapture.cpp:166-171 | the file header names the type "BM", a size of 54 + `w*h*4` bytes, zero reserved words and the pixels at offset 54 |
| Bitmap.EncodeFileHeader | WGCCapture.cpp:181 | the file header is 14 bytes |
| Bitmap.FileHeaderRoundTrip | WGCCapture.cpp:181 | decoding the 14 bytes gives back every file header field |
| Bitmap.InfoHeaderFor | WGCCapture.cpp:173-179 | the info header is 40 bytes long by its own size field; width w, height -h (top-down), one plane of 32 bits, BI_RGB, `w*h*4` image bytes and zero in the other fields |
| Bitmap.EncodeInfoHeader | WGCCapture.cpp:182 | the info header is 40 bytes |
| Bitmap.InfoHeaderRoundTrip | WGCCapture.cpp:182 | decoding the 40 bytes gives back every info header field |
| Bitmap.ImageBytesIsProduct | WGCCapture.cpp:171-183 | the image byte count `ImageBytes(w, h)`, `h` rows of `w*4` bytes, is `w*h*4` |
| Bitmap.SaveBitmap | WGCCapture.cpp:156-186 | nothing is written when the file cannot be opened; otherwise the file is `54 + ImageBytes(w, h)` bytes, and after the headers come exactly the first `ImageBytes(w, h)` bytes of the data |
| Bitmap.SavedHeaders | WGCCapture.cpp:166-179 | the saved headers read back as bfType "BM", bfSize equal to the file length, bfOffBits 54, biSize 40, biWidth w, biHeight -h, 1 plane, 32 bits, BI_RGB, biSizeImage `ImageBytes(w, h)`, and 0 in every other field |
| Bitmap.ParseBitmap | WGCCapture.cpp:181-183 | a reader of uncompressed 32-bit BMP files whose headers agree with the file length: the pixels it returns are the file's tail, after the headers, `width*height*4` bytes long |
| Bitmap.SavedBitmapParses | WGCCapture.cpp:156-186 | a saved file reads back as a top-down image of the given width and height whose pixels are the first `w*h*4` bytes of the data |

## Findings

| source | as written | input that shows it | evidently intended | confidence | as-written member | corrected member |
|---|---|---|---|---|---|---|
| CaptureManager.cpp:136-141 | `MapFrameToCPU` returns false after a failed staging texture or map without calling `ReleaseFrame` | a cycle with S_OK and a failed staging texture; every later `AcquireNextFrame` then fails with DXGI_ERROR_INVALID_CALL, and a following new frame is never dispatched | release the frame on every exit, as `CaptureDLL.cpp:129,141` does | high (proved on the model; not executed) | Manager.FailedTransferStallsCapture | Manager.RunDispatchesEveryFrame |
| CaptureDLL.cpp:172 | `if (!AcquireFrame(...) && capturing) continue;` falls through when the flag was cleared during a failed acquisition | `AcquireNextFrame` times out on a static screen while `StopCapture` clears the flag; `MapFrameToCPU` then runs `desktopResource.As` on an empty resource (CaptureDLL.cpp:115), a null dereference | `if (!AcquireFrame(...)) continue;` | high (proved on the model; not executed) | CaptureDll.TimeoutAfterStopReachesMap | CaptureDll.Cycle |

The class methods follow the code as written and are proved against the
as-written functions (`Manager.CycleAsWritten`, `CaptureDll.CycleAsWritten`
and the runs built from them). The corrected functions (`Manager.Cycle`,
`CaptureDll.Cycle`) carry the intended properties. The two differ only where
stated by `Manager.CycleAgreesUnlessTransferFails`,
`CaptureDll.CycleAgreesUnlessStoppedAfterFailure` and
`CaptureDll.RunLoopAgreesUnlessNullResource`.

## Left out

- Direct3D, DXGI and WinRT set-up, the GPU copy and the staging texture: foreign calls. Their outcomes are inputs.
- The WGC capture session and `CaptureFrame` in WGCCapture.cpp: foreign calls; only `SaveBitmap` is modelled.
- Threads, the mutex, `join` and the thread pool's workers: the capture thread's view of the flag is an input, `Start`/`Stop` are sequential transitions, and the pool is its queue of tasks. Which buffer contents a pool task reads when it runs is not modelled, since it reads them through `this` while the loop goes on.
- Frame pacing: the floating-point `frameTime`, the sleep in CaptureManager.cpp and the busy-wait in CaptureDLL.cpp. Timestamps are inputs.
- The frame delta and compression: declared but never implemented or called.
- Logging (`Log.cpp`, `log`/`loge` calls, `std::cerr`), `TestDLL` and `main`: output only.
- `CaptureDLL.h`: its callback signature does not match `CaptureDLL.cpp:216`; the model follows the `.cpp`.
- `FrameData.h`: only as the `Delivery` record. The DLL loop leaves `frameRate` and `dataSize` unset, so `Delivery` has no such fields.
- `StopCapture` in CaptureDLL.cpp calls `Release()` on each handle and then assigns `nullptr` to its `ComPtr`, which releases it a second time. Reference counts are not modelled, only whether each handle is present.
- The outer `catch` of the DLL loop: the only exception source modelled is the callback.
- Manager.CaptureManager.Initialize: requires `0 <= width`, `0 <= height` and `width * height * 4` to fit in an `int`, because the C++ computes `frameSize` in `int`.
- Bitmap.SaveBitmap: requires `0 <= width`, `0 <= height`, `width * height * 4` to fit in an `int` and at least that many bytes of `data`. The C++ computes the sizes in `int` and reads that many bytes through the pointer.
- The WGC caller passes the mapped texture's pointer to `SaveBitmap` without regard to its row pitch; that caller is not part of this model.
- Manager.CaptureManager.AcquireFrame, Manager.CaptureManager.MapFrameToCpu, Manager.CaptureManager.CaptureCycle, Manager.CaptureManager.CaptureLoop: require the handles they call through (the duplication; the device and its context when a frame is transferred). `Start` does not check what `Initialize` returned (CaptureManager.cpp:54-61), and `Stop` resets the handles (CaptureManager.cpp:71-73) without stopping a later `Start`. So a capture thread can run with a null `desktopDuplication` and crash at CaptureManager.cpp:116. That crash is not modelled.
- Manager.CaptureManager.CaptureLoop and CaptureDll.CaptureGlobals.CaptureLoop: require all three handles, including for a run in which no frame is ever acquired and the device is never used.
- CaptureDll.CaptureGlobals.AcquireFrame, CaptureDll.CaptureGlobals.MapFrameToCpu, CaptureDll.CaptureGlobals.CaptureCycle: require the handles they call through. `StartCapture` starts the thread only after a successful initialization (CaptureDLL.cpp:216-228), so its `ensures` provides them.
- Manager.Fits: every mapped texture is assumed to hold `height` rows of `width * 4` bytes at its row pitch. `MapFrameToCPU` never compares the texture's size from `GetDesc` (CaptureManager.cpp:129) with the session's, so a desktop smaller than the configured size makes the row loop read past the mapped rows. That read is undefined behaviour and is not modelled.
- CaptureDll.Fits: the same assumption for the fixed 1920 x 1080 frame (CaptureDLL.cpp:34-35). The texture's size from `GetDesc` (CaptureDLL.cpp:119) is never compared with it, so on a smaller desktop the `memcpy` at CaptureDLL.cpp:150 reads past the mapped rows. That read is not modelled.
