# CameraPreview model

A Dafny model of the camera core of the cameraTwoXml Android app, the class
`CameraPreview` in `CameraPreview.kt`. Three parts are modelled:

- **Preview-size selection** (`chooseOptimalSize`). Among the output sizes the
  camera stream supports, it picks the one whose area is closest to the area
  of the texture view. The first candidate wins a tie.
- **The frame burst.** `startCapturingFrames(count)` resets a burst. Each
  surface-update tick then runs `captureFrame` while capturing is on. Each
  effective call reads a bitmap and, when it is not null, stores a copy of it
  and reports it to the listener with `onFrameCaptured`. When the counter reaches the request, the
  whole list goes to `onFramesCaptured` and capturing stops.
- **The device and session handles.** These are the `cameraDevice` and
  `cameraCaptureSession` fields. The driver callbacks (`onOpened`,
  `onDisconnected`, `onError`, `onConfigured`) and `closeCamera` update them.

Files:

- `kotlin_int.dfy` (module `KotlinInt`): Kotlin's 32-bit `Int`, with
  wrap-around `*` and `-`, and `kotlin.math.abs`, which returns
  `Int.MIN_VALUE` for `Int.MIN_VALUE`.
- `size_negotiator.dfy` (module `SizeNegotiator`): `ChooseOptimalSize`, the
  source's loop as written, proved against the predicate `IsEarliestMin`
  over the sequence of area differences, `Diffs`. The independent recursive
  definition `FirstMinIndex` meets the same predicate, and the predicate
  admits only one index (`EarliestMinIsUnique`), so the loop and the
  definition agree. The arithmetic is exact 32-bit arithmetic, so the only
  precondition is the one the source has: a non-empty array.
  `DiffsAreExact` shows that when every width and height is non-negative and
  no area exceeds `Int.MAX_VALUE`, the differences are the true ones, so the
  choice is the selection by true areas.
- `frame_capture.dfy` (module `FrameCapture`): the four burst fields as the
  value `Burst`. `startCapturingFrames` is the function `Start`, which returns
  the reset state. `captureFrame` and the tick gate are the functions
  `CaptureFrame` and `Tick`, which return the new state together with the
  listener calls they make. Lemmas cover single calls and arbitrary sequences
  of ticks.
- `camera.dfy` (module `Camera`): the class `CameraPreview`. Its fields are
  the source's fields, plus the texture view's default buffer size and which
  surface listener is installed. Its methods are the source's methods and
  callbacks.
  The burst methods are specified by the `FrameCapture` functions. Listener
  calls are recorded in a ghost log, `events`. The bitmap read from the
  texture view is a method parameter of type `Option<Frame>`, so a null
  bitmap is `None`.
- `wrappers.dfy` (module `Wrappers`): `Option`.

Behaviour of the code worth knowing, which the model keeps:

- A null bitmap still advances `capturedFramesCount` (`CameraPreview.kt:276`).
  Every tick while capturing uses up a slot, so a burst can complete with
  fewer frames than requested, down to an empty batch (`RunOutcome`,
  `NullBitmapSpendsSlot`).
- `startCapturingFrames` does not check `count > 0`. With `count <= 0` the
  flag stays set for good and no listener method is ever called
  (`NonPositiveCountNeverCompletes`).
- `onDisconnected` and `onError` clear the device but not the capture
  session, so a session can outlive its device. Only `closeCamera` clears both.
- Only the surface listener that `startCameraPreview` installs when the
  texture is not yet available forwards update ticks to `captureFrame`. The
  listener installed at construction ignores them (`CameraPreview.kt:74-75`).
  If the texture is already available, `startCameraPreview` opens the camera
  and leaves that listener in place. The field `ticksCaptureFrames` records
  which listener is installed.

## Model

| member | source | states |
|---|---|---|
| KotlinInt.Wrap | app/src/main/java/com/example/cameraxml/CameraPreview.kt:348-354 | the result of an `Int` product or difference is congruent to the true value modulo 2^32, and equals it when it fits in 32 bits |
| KotlinInt.Abs | app/src/main/java/com/example/cameraxml/CameraPreview.kt:354 | the result is non-negative exactly when the argument is not `Int.MIN_VALUE`, and is either the argument or its negation |
| SizeNegotiator.FirstMinIndex | app/src/main/java/com/example/cameraxml/CameraPreview.kt:343-361 | a reference definition of the chosen candidate; it always names an index into `choices` |
| SizeNegotiator.FirstMinIndexIsEarliestMin | app/src/main/java/com/example/cameraxml/CameraPreview.kt:352-359 | the reference choice has the least area difference of all candidates, and every earlier candidate is strictly worse |
| SizeNegotiator.EarliestMinIsUnique | app/src/main/java/com/example/cameraxml/CameraPreview.kt:355-358 | "least difference, ties to the earliest" determines a single index: the strict `<` fixes the result |
| SizeNegotiator.ChooseOptimalSize | app/src/main/java/com/example/cameraxml/CameraPreview.kt:343-361 | for every non-empty `choices` the loop returns an element of `choices` whose 32-bit area difference is no larger than any candidate's, and no earlier candidate is as good |
| SizeNegotiator.AreaDiffIsExact | app/src/main/java/com/example/cameraxml/CameraPreview.kt:348-354 | with non-negative sizes and areas within `Int.MAX_VALUE`, the computed `abs(area - textureViewArea)` is the true absolute difference |
| SizeNegotiator.DiffsAreExact | app/src/main/java/com/example/cameraxml/CameraPreview.kt:343-361 | without overflow, every 32-bit difference equals the true one, so the choice is the one made by true areas |
| SizeNegotiator.ExampleSelection | app/src/main/java/com/example/cameraxml/CameraPreview.kt:343-361 | 640x480, 1280x720 and 1920x1080 against an 800x600 view select 640x480 |
| FrameCapture.InitialIsValid | app/src/main/java/com/example/cameraxml/CameraPreview.kt:36-42 | the initial field values satisfy the burst invariant, with capturing off |
| FrameCapture.Start | app/src/main/java/com/example/cameraxml/CameraPreview.kt:288-293 | the reset state: the request is `count`, capturing on, counter 0, list empty, whatever came before; it satisfies the burst invariant for every `count` |
| FrameCapture.CaptureFrameSpendsSlot | app/src/main/java/com/example/cameraxml/CameraPreview.kt:271-276 | an effective call raises the counter by exactly one, null bitmap or not, keeps the request, and appends the bitmap to the list only when there is one |
| FrameCapture.CaptureFrameReports | app/src/main/java/com/example/cameraxml/CameraPreview.kt:277-279 | an effective call reports exactly the bitmap read to `onFrameCaptured`, and nothing when it was null |
| FrameCapture.CaptureFrameCompletes | app/src/main/java/com/example/cameraxml/CameraPreview.kt:280-283 | `onFramesCaptured` with the stored list is called, as the last call and exactly once, and capturing stops, if and only if the counter reaches the request |
| FrameCapture.CaptureFrameWhenDone | app/src/main/java/com/example/cameraxml/CameraPreview.kt:271 | when the counter has reached the request, `captureFrame` changes nothing and calls no listener method |
| FrameCapture.CaptureFrame | app/src/main/java/com/example/cameraxml/CameraPreview.kt:270-286 | `captureFrame` preserves the burst invariant (list length at most the counter, the counter between 0 and a non-negative request, room left while a positive burst runs), keeps the request, never turns capturing on, and only extends the list, by at most one frame |
| FrameCapture.Tick | app/src/main/java/com/example/cameraxml/CameraPreview.kt:107-111 | with capturing off a tick changes nothing and calls no listener method; otherwise it preserves the invariant, keeps the request, never turns capturing on, and only extends the list |
| FrameCapture.RunWhenIdle | app/src/main/java/com/example/cameraxml/CameraPreview.kt:107-111 | with capturing off, any sequence of ticks changes nothing and calls no listener method |
| FrameCapture.RunFromStart | app/src/main/java/com/example/cameraxml/CameraPreview.kt:270-293 | after `startCapturingFrames(count)` with `count > 0` and any ticks: the invariant holds; the frames reported one by one are exactly the stored list; no batch while capturing; once stopped, the counter equals the request and exactly one batch, the stored list, was delivered, last |
| FrameCapture.RunAvailablePrefix | app/src/main/java/com/example/cameraxml/CameraPreview.kt:270-293 | after `startCapturingFrames(count)`, `k < count` ticks that each read a bitmap leave capturing on, the counter at `k`, the first `k` frames stored, and one `onFrameCaptured` per frame |
| FrameCapture.BurstOfAvailableFrames | app/src/main/java/com/example/cameraxml/CameraPreview.kt:270-293 | `count` ticks that each read a bitmap produce `count` `onFrameCaptured` calls in capture order, then one `onFramesCaptured` with all `count` frames, and capturing stops |
| FrameCapture.TickAfterBurst | app/src/main/java/com/example/cameraxml/CameraPreview.kt:107-111 | once a burst has stopped, whatever its ticks read, one more tick changes neither the state nor the listener calls |
| FrameCapture.RunOutcome | app/src/main/java/com/example/cameraxml/CameraPreview.kt:271-283 | after `startCapturingFrames(count)`, `count > 0`, and any ticks: with `n` the smaller of `count` and the number of ticks, the counter is `n`, the list holds the non-null bitmaps among the first `n` reads in order, and capturing is still on exactly when fewer than `count` ticks ran |
| FrameCapture.NullBitmapSpendsSlot | app/src/main/java/com/example/cameraxml/CameraPreview.kt:272-283 | a one-frame burst whose tick reads a null bitmap completes, delivering an empty batch |
| FrameCapture.NonPositiveCountNeverCompletes | app/src/main/java/com/example/cameraxml/CameraPreview.kt:288-293 | with `count <= 0`, any ticks leave the flag set and the state as started, and call no listener method |
| Camera.CameraPreview.constructor | app/src/main/java/com/example/cameraxml/CameraPreview.kt:35-77 | no device, no session, no burst, no listener, and a surface listener that ignores update ticks |
| Camera.CameraPreview.SetFrameCaptureListener | app/src/main/java/com/example/cameraxml/CameraPreview.kt:304-306 | a listener is registered |
| Camera.CameraPreview.StartCameraPreview | app/src/main/java/com/example/cameraxml/CameraPreview.kt:79-117 | when the texture is not available, the installed listener forwards update ticks to `captureFrame` from then on; otherwise the listener is left as it was |
| Camera.CameraPreview.StartCapturingFrames | app/src/main/java/com/example/cameraxml/CameraPreview.kt:288-293 | `framesCount == count`, capturing on, counter 0, list empty, whatever the previous state; the invariant holds |
| Camera.CameraPreview.CaptureFrame | app/src/main/java/com/example/cameraxml/CameraPreview.kt:270-286 | the burst fields become those of `FrameCapture.CaptureFrame`; its listener calls are appended to the log when a listener is registered; the invariant is preserved; nothing else changes |
| Camera.CameraPreview.OnSurfaceTextureUpdated | app/src/main/java/com/example/cameraxml/CameraPreview.kt:107-111 | a tick runs `captureFrame` only through the forwarding listener and only while capturing; otherwise nothing changes |
| Camera.CameraPreview.OnOpened | app/src/main/java/com/example/cameraxml/CameraPreview.kt:133-164 | the device is stored; with no supported sizes the callback fails (`choices[0]` throws) and no buffer size is set; otherwise, when the surface texture is non-null, the texture buffer is set to a supported size of least area difference from the view, earlier sizes being strictly worse, and with a null texture it is left as it was |
| Camera.CameraPreview.OnDisconnected | app/src/main/java/com/example/cameraxml/CameraPreview.kt:139-143 | the device becomes null; the session field is untouched |
| Camera.CameraPreview.OnError | app/src/main/java/com/example/cameraxml/CameraPreview.kt:145-149 | the same as a disconnect, whatever the error code |
| Camera.CameraPreview.OnConfigured | app/src/main/java/com/example/cameraxml/CameraPreview.kt:175-178 | the session is stored if and only if the device is non-null; otherwise the session field is unchanged |
| Camera.CameraPreview.CloseCamera | app/src/main/java/com/example/cameraxml/CameraPreview.kt:308-320 | both the session and the device are null afterwards, from any state, so a second call changes nothing |
| Camera.CameraPreview.OnSurfaceTextureDestroyed | app/src/main/java/com/example/cameraxml/CameraPreview.kt:101-105 | closes the camera whether or not a burst is running, leaving the burst fields as they are, and reports the texture released |

## Left out

- `configureTransform` (`CameraPreview.kt:203-232`): it works on floating-point `Matrix` and `RectF` values.
- `openCamera`'s driver calls and everything they depend on: `getCameraId`, `getCameraCharacteristics`, `cameraManager.openCamera`, `createCaptureRequest`, `createCaptureSession`, `setRepeatingRequest`, `camera.close()` in the callbacks, and `closeCamera`'s `cameraCaptureSession?.close()` and `cameraDevice?.close()`. These are foreign Android APIs. Their outcomes enter the model as the callback methods, called one at a time in any order.
- The `cameraOpenCloseLock` semaphore (timed `tryAcquire`, `acquire`, `release`) and the background `HandlerThread`: they exist only for concurrency and timing, and the model runs one event at a time. The `RuntimeException`s for a lock timeout or an interrupted wait are not modelled either.
- `onConfigureFailed`: it does nothing.
- The `println` at `CameraPreview.kt:285` and the private accessor `getCapturedFrames`, which nothing calls.
- CaptureFrame: listener methods are assumed not to call back into `CameraPreview`. The source calls `onFrameCaptured` (`CameraPreview.kt:278`) before the completion check, and `onFramesCaptured` (`:281`) before `isCapturingFrames = false` (`:282`). So a listener whose `onFramesCaptured` calls `startCapturingFrames(3)` leaves the fields at 3, 0 and an empty list, and line 282 then clears the flag, so the restarted burst never gets a tick. The model records listener calls in a log without side effects and cannot express this re-entry. `RunFromStart` and `RunOutcome` hold only for listeners that do not re-enter.
- OnOpened: the exception that `choices[0]` throws on an empty size array is modelled only as the `failed` result, with no buffer size set. What the uncaught exception then does to the app is not modelled.
- SetFrameCaptureListener: listener identity is not modelled. Only whether a listener is registered is recorded, and the calls to every listener registered over time go to the one `events` log.
- Bitmap pixels and `bitmap.copy`: frames are opaque values, so the stored copy equals the bitmap read.
- CaptureFrame: `onFramesCaptured` receives the live `capturedFramesList`, which a later `startCapturingFrames` clears. The log records the list's contents at the time of the call, so this aliasing is not captured.
- The commented-out aspect-ratio `chooseOptimalSize` (`CameraPreview.kt:322-341`): it is dead code.
- `MainActivity.kt`: permission requests and activity glue.
- ChooseOptimalSize: the source takes an `Array<Size>` it only reads. The model takes a sequence, so it does not capture the array's identity.
