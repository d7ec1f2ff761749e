/**
 * The composition metadata of a captioned video
 * (`calculateCaptionedVideoMetadata` in src/CaptionedVideo/index.tsx).
 *
 * Probing the video (`getVideoMetadata`) is an external asynchronous call;
 * the model takes its result, the duration in seconds, as a parameter.
 * Durations are exact reals: the IEEE-754 rounding of the product
 * `durationInSeconds * fps` is idealised away.
 */
module Metadata {

  /** The frame rate of every captioned-video composition. */
  const Fps: int := 30

  datatype CompositionMetadata = CompositionMetadata(fps: int, durationInFrames: int)

  /**
   * The composition is sized to the number of whole frames the video covers
   * at 30 frames per second: the largest integer not above `30 * d`.
   */
  function CalculateMetadata(durationInSeconds: real): (m: CompositionMetadata)
    ensures m.fps == Fps
    ensures m.durationInFrames as real <= durationInSeconds * Fps as real
    ensures durationInSeconds * Fps as real < m.durationInFrames as real + 1.0
    ensures durationInSeconds >= 0.0 ==> m.durationInFrames >= 0
  {
    CompositionMetadata(Fps, (durationInSeconds * Fps as real).Floor)
  }

  /** The frame count is the only integer within one frame below the exact product. */
  lemma FramesUnique(durationInSeconds: real, n: int)
    requires n as real <= durationInSeconds * Fps as real < n as real + 1.0
    ensures CalculateMetadata(durationInSeconds).durationInFrames == n
  {
    var m := CalculateMetadata(durationInSeconds).durationInFrames;
    assert m as real < n as real + 1.0 && n as real < m as real + 1.0;
    assert m < n + 1 && n < m + 1;
  }

  /** A longer video never gets fewer frames. */
  lemma FramesMonotone(d1: real, d2: real)
    requires d1 <= d2
    ensures CalculateMetadata(d1).durationInFrames <= CalculateMetadata(d2).durationInFrames
  {
    var m1 := CalculateMetadata(d1).durationInFrames;
    var m2 := CalculateMetadata(d2).durationInFrames;
    assert m1 as real <= d2 * Fps as real;
    assert m1 as real < m2 as real + 1.0;
  }

  /** A ten-second video is 300 frames long. */
  lemma TenSecondsIsThreeHundredFrames()
    ensures CalculateMetadata(10.0) == CompositionMetadata(30, 300)
  {
    FramesUnique(10.0, 300);
  }
}
