/** The sample record of the Rust extension (`ext/pf2/src/sample.rs`): the
    Ruby thread it was taken on, the capture instant (nanoseconds on the
    monotonic clock), how many frames the VM reported, and the fixed-size
    frame and line-number arrays (2000 entries each, zero past the end). */
module RustSample {

  /** Length of the frame and line-number arrays. */
  const MaxFrames: nat := 2000

  datatype Sample = Sample(
    rubyThread: int,
    timestamp: int,
    lineCount: int,
    frames: seq<int>,
    linenos: seq<int>)

  /** A sample as `Sample::capture` builds it: full-size arrays and a frame
      count the arrays can hold. */
  predicate WellFormed(s: Sample) {
    && |s.frames| == MaxFrames && |s.linenos| == MaxFrames
    && s.lineCount <= MaxFrames
  }
}
