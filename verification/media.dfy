/** Types shared by the subtitle decoders, the recognition drivers and the SubRip writer. */
module Media {

  /** A time offset in nanoseconds, as Go's `time.Duration`. Only non-negative offsets are modelled. */
  type Duration = nat

  /** A decoded subtitle bitmap; the model never looks inside it. */
  datatype Bitmap = Bitmap(pixels: seq<int>)

  /** One image subtitle with its display window (`ImageSubtitle` / `PGSSubtitle`). */
  datatype ImageSubtitle = ImageSubtitle(image: Bitmap, startTime: Duration, endTime: Duration)
}
