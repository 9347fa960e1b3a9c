/**
 * The recorder's configuration constants and the frame counts derived from them
 * when an `AudioRecorder` is constructed. Durations are kept in whole milliseconds,
 * so the source's "seconds times 1000, divided by the frame duration, truncated"
 * becomes a floor division of naturals.
 */
module Config {

  const OUTPUT_FORMAT: string := "flac"
  const SAMPLE_RATE: nat := 16000
  const FRAME_DURATION_MS: nat := 30
  const SILENCE_DURATION_BEFORE_SAVE_MS: nat := 3000
  const TRAILING_SILENCE_TO_KEEP_MS: nat := 100
  const MINIMUM_CONSECUTIVE_SPEECH_FRAMES: nat := 7

  /** How many whole frames of `frameMs` fit in `durationMs`: `int(duration / frame)`. */
  function FramesIn(durationMs: nat, frameMs: nat): nat
    requires frameMs > 0
  {
    durationMs / frameMs
  }

  /** Samples in one frame: `int(rate * frameMs / 1000)`. */
  function SamplesPerFrame(rate: nat, frameMs: nat): nat
  {
    rate * frameMs / 1000
  }

  /** A derived count is the largest number of whole frames that fit in the duration. */
  lemma FramesInIsFloor(durationMs: nat, frameMs: nat)
    requires frameMs > 0
    ensures var n := FramesIn(durationMs, frameMs);
      n * frameMs <= durationMs < (n + 1) * frameMs
  {
  }

  /** The frame size is the largest sample count whose duration fits in one frame. */
  lemma SamplesPerFrameIsFloor(rate: nat, frameMs: nat)
    ensures var n := SamplesPerFrame(rate, frameMs);
      n * 1000 <= rate * frameMs < (n + 1) * 1000
  {
  }

  /** Non-speech frames in a row that close a recording. */
  const SILENCE_THRESHOLD: nat := FramesIn(SILENCE_DURATION_BEFORE_SAVE_MS, FRAME_DURATION_MS)

  /** Trailing non-speech frames a saved recording keeps. */
  const TRAILING_SILENCE_FRAMES: nat := FramesIn(TRAILING_SILENCE_TO_KEEP_MS, FRAME_DURATION_MS)

  /** Samples read from the stream per frame. */
  const FRAME_SIZE: nat := SamplesPerFrame(SAMPLE_RATE, FRAME_DURATION_MS)

  lemma DerivedCounts()
    ensures SILENCE_THRESHOLD == 100
    ensures TRAILING_SILENCE_FRAMES == 3
    ensures FRAME_SIZE == 480
  {
  }
}
