/** `CameraPreview`: the object whose fields the surface-texture listener,
    the camera-driver callbacks and the public methods update in place. The
    driver is not modelled; each of its callbacks is a method of its own, run
    one at a time. Calls on the frame-capture listener are recorded in the
    ghost log `events`. */
module Camera {
  import opened Wrappers
  import opened KotlinInt
  import opened SizeNegotiator
  import opened FrameCapture

  /** An open `CameraDevice` and a configured `CameraCaptureSession`, opaque. */
  datatype Device = Device(id: nat)
  datatype Session = Session(id: nat)

  class CameraPreview {
    var cameraDevice: Option<Device>
    var cameraCaptureSession: Option<Session>
    /** The size last passed to `texture.setDefaultBufferSize`. */
    var previewBufferSize: Option<Size>

    var framesCount: Int32
    var isCapturingFrames: bool
    var capturedFramesCount: Int32
    var capturedFramesList: seq<Frame>

    /** Whether `frameCaptureListener` is non-null. */
    var hasFrameCaptureListener: bool
    /** Whether the installed surface listener forwards update ticks to
        `captureFrame`: the one installed at construction ignores them, the
        one `startCameraPreview` installs checks `isCapturingFrames`. */
    var ticksCaptureFrames: bool

    /** Every call made on the frame-capture listener, in order. */
    ghost var events: seq<Event>

    /** The burst fields as a value of the pure model. */
    function BurstState(): Burst
      reads this
    {
      Burst(framesCount, isCapturingFrames, capturedFramesCount, capturedFramesList)
    }

    ghost predicate Valid()
      reads this
    {
      Inv(BurstState())
    }

    /** The field initialisers and the `init` block: no device, no session,
        no burst, no listener, and a surface listener that ignores ticks. */
    constructor ()
      ensures Valid()
      ensures cameraDevice == None && cameraCaptureSession == None && previewBufferSize == None
      ensures BurstState() == Initial
      ensures !hasFrameCaptureListener && !ticksCaptureFrames && events == []
    {
      cameraDevice := None;
      cameraCaptureSession := None;
      previewBufferSize := None;
      framesCount := 0;
      isCapturingFrames := false;
      capturedFramesCount := 0;
      capturedFramesList := [];
      hasFrameCaptureListener := false;
      ticksCaptureFrames := false;
      events := [];
    }

    /** `setFrameCaptureListener(listener)`. */
    method SetFrameCaptureListener()
      modifies this`hasFrameCaptureListener
      ensures hasFrameCaptureListener
    {
      hasFrameCaptureListener := true;
    }

    /** `startCameraPreview()`. With the texture available the camera is opened
        (a driver call, not modelled here; its outcome arrives as `OnOpened`,
        `OnDisconnected` or `OnError`); otherwise a surface listener that
        forwards update ticks to `captureFrame` replaces the current one. */
    method StartCameraPreview(textureIsAvailable: bool)
      modifies this`ticksCaptureFrames
      ensures ticksCaptureFrames == (old(ticksCaptureFrames) || !textureIsAvailable)
    {
      if !textureIsAvailable {
        ticksCaptureFrames := true;
      }
    }

    /** `startCapturingFrames(count)`: restarts the burst from nothing. */
    method StartCapturingFrames(count: Int32)
      modifies this`framesCount, this`isCapturingFrames, this`capturedFramesCount, this`capturedFramesList
      ensures Valid()
      ensures BurstState() == Start(count)
      ensures framesCount == count && isCapturingFrames && capturedFramesCount == 0 && capturedFramesList == []
    {
      framesCount := count;
      isCapturingFrames := true;
      capturedFramesCount := 0;
      capturedFramesList := [];
    }

    /** `captureFrame()`, where `bitmap` is what `textureView.bitmap` returns.
        The counter advances even when the bitmap is null. */
    method CaptureFrame(bitmap: Option<Frame>)
      requires Valid()
      modifies this`isCapturingFrames, this`capturedFramesCount, this`capturedFramesList, this`events
      ensures Valid()
      ensures BurstState() == FrameCapture.CaptureFrame(old(BurstState()), bitmap).burst
      ensures events == old(events) +
        (if hasFrameCaptureListener then FrameCapture.CaptureFrame(old(BurstState()), bitmap).events else [])
    {
      if capturedFramesCount < framesCount {
        if bitmap.Some? {
          capturedFramesList := capturedFramesList + [bitmap.value];
        }
        capturedFramesCount := capturedFramesCount + 1;
        if bitmap.Some? && hasFrameCaptureListener {
          events := events + [FrameCaptured(bitmap.value)];
        }
        if capturedFramesCount == framesCount {
          if hasFrameCaptureListener {
            events := events + [FramesCaptured(capturedFramesList)];
          }
          isCapturingFrames := false;
        }
      }
    }

    /** `onSurfaceTextureUpdated`: a tick reaches `captureFrame` only through
        the listener `startCameraPreview` installs, and only while capturing. */
    method OnSurfaceTextureUpdated(bitmap: Option<Frame>)
      requires Valid()
      modifies this`isCapturingFrames, this`capturedFramesCount, this`capturedFramesList, this`events
      ensures Valid()
      ensures BurstState() == if ticksCaptureFrames then Tick(old(BurstState()), bitmap).burst else old(BurstState())
      ensures events == old(events) +
        (if ticksCaptureFrames && hasFrameCaptureListener then Tick(old(BurstState()), bitmap).events else [])
    {
      if ticksCaptureFrames {
        if isCapturingFrames {
          CaptureFrame(bitmap);
        }
      }
    }

    /** `onOpened(camera)`: the device is stored, then the preview session is
        prepared: the output size closest in area to the view is chosen and,
        when `textureView.surfaceTexture` is non-null, the texture buffer is set
        to it. Creating the capture request and session are driver calls; the
        session arrives later through `OnConfigured`. With no supported sizes,
        `choices[0]` throws out of the callback (nothing catches it), after the
        device was stored and before any buffer size is set: `failed` is true. */
    method OnOpened(camera: Device, outputSizes: seq<Size>, width: Int32, height: Int32, textureIsPresent: bool)
      returns (failed: bool)
      modifies this`cameraDevice, this`previewBufferSize
      ensures cameraDevice == Some(camera)
      ensures failed == (|outputSizes| == 0)
      ensures failed || !textureIsPresent ==> previewBufferSize == old(previewBufferSize)
      ensures !failed && textureIsPresent ==>
        previewBufferSize.Some? &&
        exists k :: IsEarliestMin(Diffs(outputSizes, Mul(width, height)), k) && outputSizes[k] == previewBufferSize.value
    {
      cameraDevice := Some(camera);
      if |outputSizes| == 0 {
        return true;
      }
      var previewSize := ChooseOptimalSize(outputSizes, width, height);
      if textureIsPresent {
        previewBufferSize := Some(previewSize);
      }
      failed := false;
    }

    /** `onDisconnected(camera)`: the device is closed and forgotten. The
        capture session field is left as it was. */
    method OnDisconnected()
      modifies this`cameraDevice
      ensures cameraDevice == None
    {
      cameraDevice := None;
    }

    /** `onError(camera, error)`: handled exactly like a disconnect. */
    method OnError(error: Int32)
      modifies this`cameraDevice
      ensures cameraDevice == None
    {
      cameraDevice := None;
    }

    /** `onConfigured(session)`: the session is kept only if the device is
        still open; the repeating request it then starts is a driver call. */
    method OnConfigured(session: Session)
      modifies this`cameraCaptureSession
      ensures cameraCaptureSession == if old(cameraDevice).Some? then Some(session) else old(cameraCaptureSession)
    {
      if cameraDevice == None {
        return;
      }
      cameraCaptureSession := Some(session);
    }

    /** `closeCamera()`: the session, then the device, are closed and cleared.
        Calling it again, or before anything was opened, leaves the same state. */
    method CloseCamera()
      modifies this`cameraDevice, this`cameraCaptureSession
      ensures cameraDevice == None && cameraCaptureSession == None
    {
      cameraCaptureSession := None;
      cameraDevice := None;
    }

    /** `onSurfaceTextureDestroyed`: closes the camera, whether or not a burst
        is running (the burst fields are left as they are), and reports the
        texture as released. */
    method OnSurfaceTextureDestroyed() returns (released: bool)
      modifies this`cameraDevice, this`cameraCaptureSession
      ensures cameraDevice == None && cameraCaptureSession == None
      ensures released
    {
      CloseCamera();
      released := true;
    }
  }

  /** What a client can conclude from the contracts alone: a three-frame burst
      through the update listener, then a fourth tick that changes nothing. */
  method ThreeFrameBurst(f1: Frame, f2: Frame, f3: Frame, f4: Frame)
  {
    var preview := new CameraPreview();
    preview.SetFrameCaptureListener();
    preview.StartCameraPreview(false);
    preview.StartCapturingFrames(3);
    preview.OnSurfaceTextureUpdated(Some(f1));
    assert preview.BurstState() == Burst(3, true, 1, [f1]) && preview.events == [FrameCaptured(f1)];
    preview.OnSurfaceTextureUpdated(Some(f2));
    assert preview.BurstState() == Burst(3, true, 2, [f1, f2]);
    assert preview.events == [FrameCaptured(f1), FrameCaptured(f2)];
    preview.OnSurfaceTextureUpdated(Some(f3));
    assert [f1, f2] + [f3] == [f1, f2, f3];
    assert preview.BurstState() == Burst(3, false, 3, [f1, f2, f3]);
    assert preview.events == [FrameCaptured(f1), FrameCaptured(f2), FrameCaptured(f3), FramesCaptured([f1, f2, f3])];
    assert !preview.isCapturingFrames;
    preview.OnSurfaceTextureUpdated(Some(f4));
    assert preview.events == [FrameCaptured(f1), FrameCaptured(f2), FrameCaptured(f3), FramesCaptured([f1, f2, f3])];
    assert preview.capturedFramesList == [f1, f2, f3];
  }
}
