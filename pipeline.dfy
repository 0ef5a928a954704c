/** `main`: extract samples into a fresh directory, load samples 0 to 8 back,
    stitch them. These lemmas follow a directory from the sampler to the
    loader, for a positive interval and a directory that starts out empty. */
module Pipeline {
  import opened Wrappers
  import opened PyInt
  import opened Raster
  import opened Sampler
  import opened Loader

  /** Sample `k` of a fresh extraction is frame `k * interval` when that frame exists. */
  lemma {:induction false} SampleHoldsFrame<F, P>(frames: seq<F>, interval: int, decode: F -> Option<Image<P>>, k: int)
    requires interval > 0 && 0 <= k && k * interval < |frames|
    ensures ReadSample(Persisted(frames, |frames|, interval, map[]), decode, k) == decode(frames[k * interval])
  {
    PersistedAt(frames, |frames|, interval, map[], k);
  }

  /** A video too short for nine samples (at most `8 * interval` frames) makes the
      loader raise on the first key the sampler never wrote, even when every
      frame encodes and decodes. */
  lemma {:induction false} ShortVideoFails<F, P>(frames: seq<F>, interval: int, decode: F -> Option<Image<P>>)
    requires interval > 0 && CeilDiv(|frames|, interval) < SampleCount
    requires forall k | 0 <= k < |frames| :: decode(frames[k]).Some?
    ensures FindOverlappingFrames(Persisted(frames, |frames|, interval, map[]), decode)
            == Failure(NoShape(CeilDiv(|frames|, interval)))
    ensures FindOverlappingFramesFiltered(Persisted(frames, |frames|, interval, map[]), decode)
            == Failure(CountMismatch(SampleCount, CeilDiv(|frames|, interval)))
  {
    var n, c := |frames|, CeilDiv(|frames|, interval);
    var dir := Persisted(frames, n, interval, map[]);
    forall k | 0 <= k < c
      ensures ReadSample(dir, decode, k).Some?
    {
      MultipleBelowIff(k, interval, n);
      SampleHoldsFrame(frames, interval, decode, k);
    }
    assert c !in dir by {
      PersistedAt(frames, n, interval, map[], c);
      MultipleBelowIff(c, interval, n);
    }
    FindOverlappingFramesFails(dir, decode, c);
    var loaded := ReadSamples(dir, decode);
    forall k | c <= k < SampleCount
      ensures loaded[k].None?
    {
      PersistedAt(frames, n, interval, map[], k);
      MultipleBelowIff(k, interval, n);
    }
    assert loaded == loaded[..c] + loaded[c..];
    PresentAppend(loaded[..c], loaded[c..]);
    PresentAllSome(loaded[..c]);
    PresentAllNone(loaded[c..]);
  }

  /** Frames 0, interval, ..., 8 * interval: what the sampler writes under the keys 0 to 8. */
  function SampledFrames<F>(frames: seq<F>, interval: int): (r: seq<F>)
    requires interval > 0 && 8 * interval < |frames|
    ensures |r| == SampleCount
  {
    seq(SampleCount, k requires 0 <= k < SampleCount => MulMono(k, 8, interval); frames[k * interval])
  }

  /** A video with more than `8 * interval` frames leaves samples 0 to 8 in the
      directory, so the loader returns what they decode to, stably sorted by width. */
  lemma {:induction false} LongVideoLoads<F, P>(frames: seq<F>, interval: int, decode: F -> Option<Image<P>>, images: seq<Image<P>>)
    requires interval > 0 && 8 * interval < |frames|
    requires |images| == SampleCount
    requires forall k | 0 <= k < SampleCount :: decode(SampledFrames(frames, interval)[k]) == Some(images[k])
    ensures var r := FindOverlappingFrames(Persisted(frames, |frames|, interval, map[]), decode);
            r.Success? && StableSortOf(r.value, images) && r.value == SortByWidth(images)
    ensures FindOverlappingFramesFiltered(Persisted(frames, |frames|, interval, map[]), decode)
            == FindOverlappingFrames(Persisted(frames, |frames|, interval, map[]), decode)
  {
    var dir := Persisted(frames, |frames|, interval, map[]);
    var sampled := SampledFrames(frames, interval);
    forall k | 0 <= k < SampleCount
      ensures ReadSample(dir, decode, k) == Some(images[k])
    {
      MulMono(k, 8, interval);
      assert sampled[k] == frames[k * interval];
      SampleHoldsFrame(frames, interval, decode, k);
    }
    FindOverlappingFramesSucceeds(dir, decode, images);
    FilteredLoaderReportsCount(dir, decode);
  }
}
