/** `extract_frames`: one forward pass over the decoded video stream that
    writes every `interval`-th frame to the artifact directory under the key
    `frame_count // interval`, where `interval = fps // frame_rate`.

    The video file is modelled by `isOpened` (whether the capture opened) and the
    finite sequence of frames that `cap.read()` would return; the frames per
    second are the integer the capture reports. */
module Sampler {
  import opened Wrappers
  import opened PyInt

  datatype SampleError =
      /** `fps // frame_rate` with a zero frame rate, before any frame is read. */
    | RateDivision
      /** `frame_count % frame_interval` with a zero interval, at the first frame read. */
    | IntervalModulo

  /** The directory the samples are written to: key `q` stands for the file
      `frame_<q>.jpg`. `files` may hold artifacts of an earlier run; `writes`
      records the key of each `cv2.imwrite` call, in order. The stored value is
      the frame handed to the image codec; what the codec makes of it is not
      modelled. */
  class ArtifactDir<F> {
    var files: map<int, F>
    ghost var writes: seq<int>

    constructor (files: map<int, F>)
      ensures this.files == files && writes == []
    {
      this.files := files;
      writes := [];
    }

    /** `cv2.imwrite`: the artifact under `key` now holds `frame`, whatever it held before. */
    method Write(key: int, frame: F)
      modifies this
      ensures files == old(files)[key := frame]
      ensures writes == old(writes) + [key]
    {
      files := files[key := frame];
      writes := writes + [key];
    }
  }

  /** The directory once the loop has handled the first `count` frames. */
  function Persisted<F>(frames: seq<F>, count: nat, interval: int, dir: map<int, F>): (r: map<int, F>)
    requires count <= |frames|
    requires count == 0 || interval != 0
    ensures dir.Keys <= r.Keys
  {
    if count == 0 then dir
    else
      var k := count - 1;
      var before := Persisted(frames, k, interval, dir);
      if FloorMod(k, interval) == 0 then before[FloorDiv(k, interval) := frames[k]] else before
  }

  /** The keys written while the loop handles the first `count` frames, in the order written. */
  function WrittenKeys(count: nat, interval: int): (r: seq<int>)
    requires count == 0 || interval != 0
    ensures |r| <= count
  {
    if count == 0 then []
    else
      var k := count - 1;
      WrittenKeys(k, interval) + (if FloorMod(k, interval) == 0 then [FloorDiv(k, interval)] else [])
  }

  /** The loop of `extract_frames`. It raises on a zero frame rate before
      reading anything, and on a zero interval at the first frame it reads; an
      unopened capture or an empty stream ends the loop at once without error. */
  method ExtractFrames<F>(isOpened: bool, fps: int, frameRate: int, frames: seq<F>, dir: ArtifactDir<F>)
    returns (outcome: Outcome<SampleError>)
    modifies dir
    ensures outcome == Fail(RateDivision) <==> frameRate == 0
    ensures outcome == Fail(IntervalModulo)
            <==> frameRate != 0 && FloorDiv(fps, frameRate) == 0 && isOpened && |frames| > 0
    ensures outcome.Fail? || !isOpened ==> dir.files == old(dir.files) && dir.writes == old(dir.writes)
    ensures outcome.Pass? && isOpened ==> |frames| == 0 || FloorDiv(fps, frameRate) != 0
    ensures outcome.Pass? && isOpened ==>
              && dir.files == Persisted(frames, |frames|, FloorDiv(fps, frameRate), old(dir.files))
              && dir.writes == old(dir.writes) + WrittenKeys(|frames|, FloorDiv(fps, frameRate))
  {
    if frameRate == 0 {
      return Fail(RateDivision);
    }
    var interval := FloorDiv(fps, frameRate);
    var frameCount := 0;
    while isOpened
      invariant 0 <= frameCount <= |frames|
      invariant !isOpened ==> frameCount == 0
      invariant frameCount == 0 || interval != 0
      invariant dir.files == Persisted(frames, frameCount, interval, old(dir.files))
      invariant dir.writes == old(dir.writes) + WrittenKeys(frameCount, interval)
      decreases |frames| - frameCount
    {
      if frameCount == |frames| {
        break;
      }
      if interval == 0 {
        return Fail(IntervalModulo);
      }
      if FloorMod(frameCount, interval) == 0 {
        dir.Write(FloorDiv(frameCount, interval), frames[frameCount]);
      }
      frameCount := frameCount + 1;
    }
    return Pass;
  }

  // ----- which frames are stored, and where -----

  /** After `count` frames, key `q` holds frame `q * interval` when that index has
      been reached, and otherwise whatever the directory held before. */
  lemma {:induction false} PersistedAt<F>(frames: seq<F>, count: nat, interval: int, dir: map<int, F>, q: int)
    requires count <= |frames| && interval != 0
    ensures q in Persisted(frames, count, interval, dir) <==> q in dir || 0 <= q * interval < count
    ensures 0 <= q * interval < count ==> Persisted(frames, count, interval, dir)[q] == frames[q * interval]
    ensures q in dir && !(0 <= q * interval < count) ==> Persisted(frames, count, interval, dir)[q] == dir[q]
    decreases count
  {
    if count > 0 {
      var k := count - 1;
      PersistedAt(frames, k, interval, dir, q);
      MultipleIff(k, interval, q);
    }
  }

  /** A frame is stored exactly when its index is a multiple of the interval
      (Python's `%` finds no remainder), under the key `index // interval`; every
      key that is not a leftover of the directory holds the frame whose index is
      that key times the interval. */
  lemma {:induction false} StoredFrames<F>(frames: seq<F>, interval: int, dir: map<int, F>)
    requires interval != 0
    ensures forall k | 0 <= k < |frames| && FloorMod(k, interval) == 0 ::
              FloorDiv(k, interval) in Persisted(frames, |frames|, interval, dir)
              && Persisted(frames, |frames|, interval, dir)[FloorDiv(k, interval)] == frames[k]
    ensures forall q | q in Persisted(frames, |frames|, interval, dir) && q !in dir ::
              && 0 <= q * interval < |frames|
              && FloorMod(q * interval, interval) == 0 && FloorDiv(q * interval, interval) == q
              && Persisted(frames, |frames|, interval, dir)[q] == frames[q * interval]
  {
    var p := Persisted(frames, |frames|, interval, dir);
    forall k | 0 <= k < |frames| && FloorMod(k, interval) == 0
      ensures FloorDiv(k, interval) in p && p[FloorDiv(k, interval)] == frames[k]
    {
      var q := FloorDiv(k, interval);
      FloorModRange(k, interval);
      assert q * interval == k;
      PersistedAt(frames, |frames|, interval, dir, q);
    }
    forall q | q in p && q !in dir
      ensures && 0 <= q * interval < |frames|
              && FloorMod(q * interval, interval) == 0 && FloorDiv(q * interval, interval) == q
              && p[q] == frames[q * interval]
    {
      PersistedAt(frames, |frames|, interval, dir, q);
      MultipleIff(q * interval, interval, q);
    }
  }

  // ----- which keys are written, and in what order -----

  function Abs(x: int): nat
  {
    if x < 0 then -x else x
  }

  function Sign(x: int): int
  {
    if x < 0 then -1 else 1
  }

  /** For a non-negative index, Python's `%` and `//` by `b` are the remainder and
      quotient by `|b|`, the quotient negated when `b` is negative. */
  lemma {:induction false} MultipleOfInterval(k: nat, b: int)
    requires b != 0
    ensures FloorMod(k, b) == 0 <==> k % Abs(b) == 0
    ensures k % Abs(b) == 0 ==> FloorDiv(k, b) == Sign(b) * (k / Abs(b))
  {
    var a := Abs(b);
    var q := k / a;
    assert k == q * a + k % a;
    if k % a == 0 {
      assert (Sign(b) * q) * b == k by {
        assert Sign(b) * b == a;
        assert (Sign(b) * q) * b == q * (Sign(b) * b);
      }
      MultipleIff(k, b, Sign(b) * q);
    } else if FloorMod(k, b) == 0 {
      FloorModRange(k, b);
      var f := FloorDiv(k, b);
      assert k == (Sign(b) * f) * a by {
        assert Sign(b) * a == b;
        assert (Sign(b) * f) * a == f * (Sign(b) * a);
      }
      DivUnique(k, a, Sign(b) * f, 0);
      assert false;
    }
  }

  /** The keys are written in the order 0, 1, 2, ... (0, -1, -2, ... for a negative
      interval), one for every multiple of the interval below `count`:
      `ceil(count / |interval|)` of them, contiguous, each written once. */
  lemma {:induction false} WrittenKeysAreConsecutive(count: nat, interval: int)
    requires interval != 0
    ensures WrittenKeys(count, interval) == seq(CeilDiv(count, Abs(interval)), j => Sign(interval) * j)
    decreases count
  {
    var a := Abs(interval);
    if count == 0 {
      assert CeilDiv(0, a) == 0 by {
        DivUnique(a - 1, a, 0, a - 1);
      }
    } else {
      var k := count - 1;
      WrittenKeysAreConsecutive(k, interval);
      CeilDivStep(k, a);
      MultipleOfInterval(k, interval);
    }
  }

  /** The keys 0 .. c - 1. */
  function KeysBelow(c: nat): set<int>
  {
    if c == 0 then {} else KeysBelow(c - 1) + {c - 1}
  }

  lemma {:induction false} KeysBelowIsRange(c: nat)
    ensures forall q :: q in KeysBelow(c) <==> 0 <= q < c
    ensures |KeysBelow(c)| == c
    decreases c
  {
    if c > 0 {
      KeysBelowIsRange(c - 1);
    }
  }

  /** For a positive interval and a directory with no earlier artifacts, the
      directory ends up with exactly the keys 0 .. ceil(n / interval) - 1. */
  lemma {:induction false} SampleKeysFromEmptyDir<F>(frames: seq<F>, interval: int)
    requires interval > 0
    ensures Persisted(frames, |frames|, interval, map[]).Keys == KeysBelow(CeilDiv(|frames|, interval))
    ensures |Persisted(frames, |frames|, interval, map[])| == CeilDiv(|frames|, interval)
  {
    var p := Persisted(frames, |frames|, interval, map[]);
    var c := CeilDiv(|frames|, interval);
    KeysBelowIsRange(c);
    forall q
      ensures q in p <==> q in KeysBelow(c)
    {
      PersistedAt(frames, |frames|, interval, map[], q);
      MultipleBelowIff(q, interval, |frames|);
    }
    assert p.Keys == KeysBelow(c);
  }

  /** A ten-second clip at 30 frames per second, sampled once a second, leaves
      ten samples, keyed 0 to 9 and written in that order. */
  lemma {:induction false} TenSecondClip<F>(frames: seq<F>, fps: int, frameRate: int)
    requires |frames| == 300 && fps == 30 && frameRate == 1
    ensures FloorDiv(fps, frameRate) == 30
    ensures WrittenKeys(|frames|, FloorDiv(fps, frameRate)) == [0, 1, 2, 3, 4, 5, 6, 7, 8, 9]
    ensures forall q :: q in Persisted(frames, |frames|, FloorDiv(fps, frameRate), map[]) <==> 0 <= q < 10
    ensures |Persisted(frames, |frames|, FloorDiv(fps, frameRate), map[])| == 10
  {
    var n, interval := |frames|, FloorDiv(fps, frameRate);
    TenSecondKeys(n, interval);
    SampleKeysFromEmptyDir(frames, interval);
    KeysBelowIsRange(CeilDiv(n, interval));
  }

  lemma {:induction false} TenSecondKeys(n: nat, interval: int)
    requires n == 300 && interval == 30
    ensures CeilDiv(n, interval) == 10
    ensures WrittenKeys(n, interval) == [0, 1, 2, 3, 4, 5, 6, 7, 8, 9]
  {
    assert CeilDiv(n, interval) == 10 && Abs(interval) == 30 && Sign(interval) == 1;
    WrittenKeysAreConsecutive(n, interval);
    assert seq(10, j => Sign(interval) * j) == [0, 1, 2, 3, 4, 5, 6, 7, 8, 9];
  }
}
