/** The nullable references of the Kotlin source (`Bitmap?`, `CameraDevice?`,
    `CameraCaptureSession?`) are modelled as options. */
module Wrappers {
  datatype Option<+T> = None | Some(value: T)
}
