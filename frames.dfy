/** Value types shared by the reader, the queue, the shader and the display
    (the structs of yuvdisplay.h). */
module Frames {

  /** std::optional: a frame that may be absent. */
  datatype Option<+T> = None | Some(value: T)

  /** QSize: the configured video dimensions, fixed for the whole stream. */
  datatype Size = Size(width: int, height: int) {
    /** The launcher accepts only a non-empty size: both dimensions positive. */
    predicate IsValid() {
      width > 0 && height > 0
    }
  }

  /** VideoFrame: presentation time in milliseconds, the raw yuv420p bytes of one
      frame and the video size the bytes are laid out for. */
  datatype VideoFrame = VideoFrame(pts: int, frameData: seq<bv8>, frameSize: Size)
}
