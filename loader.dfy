/** `find_overlapping_frames`: read the sample artifacts keyed 0 to 8, sort them
    by width with Python's stable `sorted`, and insist on exactly nine of them.

    Python evaluates the sort key `x.shape[1]` on every entry before it sorts, so
    an artifact that is missing or cannot be decoded (`cv2.imread` gives `None`)
    raises inside the sort; the `None` filter and the count check after it never
    see a `None`. The model keeps that order of events. */
module Loader {
  import opened Wrappers
  import opened Raster

  /** `range(9)`: the loader reads the sample keys 0 to 8. */
  const SampleCount: nat := 9

  datatype LoadError =
      /** The width key evaluated on `None`, for the artifact under `key` (AttributeError). */
    | NoShape(key: nat)
      /** The ValueError: `expected` images were wanted and `actual` were found. */
    | CountMismatch(expected: nat, actual: nat)

  /** `cv2.imread` on the artifact stored under `key`: `None` when there is no such
      artifact or when `decode`, the image codec, cannot read it. */
  function ReadSample<F, P>(files: map<int, F>, decode: F -> Option<Image<P>>, key: int): Option<Image<P>>
  {
    if key in files then decode(files[key]) else None
  }

  /** The list comprehension: one lookup for each key 0 to 8, in key order. */
  function ReadSamples<F, P>(files: map<int, F>, decode: F -> Option<Image<P>>): (r: seq<Option<Image<P>>>)
    ensures |r| == SampleCount
  {
    seq(SampleCount, k requires 0 <= k < SampleCount => ReadSample(files, decode, k))
  }

  /** The position of the first `None`, where evaluating the key raises, or
      `None` when every entry has a shape. */
  function FirstMissing<T>(s: seq<Option<T>>): (r: Option<nat>)
    ensures r.None? <==> forall k | 0 <= k < |s| :: s[k].Some?
    ensures r.Some? ==> r.value < |s| && s[r.value].None? && forall k | 0 <= k < r.value :: s[k].Some?
  {
    if s == [] then None
    else if s[0].None? then Some(0)
    else match FirstMissing(s[1..])
      case None => None
      case Some(k) => Some(k + 1)
  }

  /** The entries of a list that holds no `None`. */
  function Values<T>(s: seq<Option<T>>): seq<T>
    requires forall k | 0 <= k < |s| :: s[k].Some?
  {
    seq(|s|, k requires 0 <= k < |s| => s[k].value)
  }

  /** `[img for img in images if img is not None]`. */
  function Present<T>(s: seq<Option<T>>): seq<T>
  {
    if s == [] then []
    else (if s[0].Some? then [s[0].value] else []) + Present(s[1..])
  }

  ghost predicate SortedByWidth<P>(s: seq<Image<P>>)
  {
    forall i, j | 0 <= i < j < |s| :: s[i].width <= s[j].width
  }

  /** The images of width `w`, in the order they appear. */
  function WithWidth<P>(s: seq<Image<P>>, w: int): seq<Image<P>>
  {
    if s == [] then []
    else (if s[0].width == w then [s[0]] else []) + WithWidth(s[1..], w)
  }

  /** `t` is `s` sorted by width, images of equal width keeping their order in `s`:
      what Python's `sorted(s, key=lambda x: x.shape[1])` promises. */
  ghost predicate StableSortOf<P>(t: seq<Image<P>>, s: seq<Image<P>>)
  {
    && SortedByWidth(t)
    && multiset(t) == multiset(s)
    && forall w :: WithWidth(t, w) == WithWidth(s, w)
  }

  /** Puts `im` in front of the first image that is at least as wide. */
  function InsertByWidth<P>(im: Image<P>, s: seq<Image<P>>): (r: seq<Image<P>>)
    ensures |r| == |s| + 1
  {
    if s == [] || im.width <= s[0].width then [im] + s
    else [s[0]] + InsertByWidth(im, s[1..])
  }

  /** A stable insertion sort on width: the earlier image is inserted last, in
      front of every later image of the same width. */
  function SortByWidth<P>(s: seq<Image<P>>): seq<Image<P>>
  {
    if s == [] then [] else InsertByWidth(s[0], SortByWidth(s[1..]))
  }

  /** Line 25 followed by lines 26 to 29: the key pass, the stable sort, the
      filter (which finds no `None` left once the key pass succeeded) and the
      count check. */
  function FindOverlappingFrames<F, P>(files: map<int, F>, decode: F -> Option<Image<P>>): (r: Result<seq<Image<P>>, LoadError>)
    ensures r.Success? ==> |r.value| == SampleCount
  {
    var loaded := ReadSamples(files, decode);
    match FirstMissing(loaded)
    case Some(k) => Failure(NoShape(k))
    case None =>
      var images := SortByWidth(Values(loaded));
      if |images| != SampleCount then Failure(CountMismatch(SampleCount, |images|))
      else Success(images)
  }

  /** The loader as its comment and its count check intend: drop what could not
      be read, demand nine survivors, then sort them. */
  function FindOverlappingFramesFiltered<F, P>(files: map<int, F>, decode: F -> Option<Image<P>>): Result<seq<Image<P>>, LoadError>
  {
    var images := Present(ReadSamples(files, decode));
    if |images| != SampleCount then Failure(CountMismatch(SampleCount, |images|))
    else Success(SortByWidth(images))
  }

  // ----- the stable sort -----

  lemma {:induction false} InsertByWidthSorted<P>(im: Image<P>, s: seq<Image<P>>)
    requires SortedByWidth(s)
    ensures SortedByWidth(InsertByWidth(im, s))
    decreases |s|
  {
    if s == [] || im.width <= s[0].width {
      ConsSorted(im, s);
    } else {
      var t := InsertByWidth(im, s[1..]);
      SortedTail(s);
      InsertByWidthSorted(im, s[1..]);
      InsertByWidthAtLeast(im, s[1..], s[0].width);
      ConsSorted(s[0], t);
    }
  }

  lemma {:induction false} InsertByWidthPermutes<P>(im: Image<P>, s: seq<Image<P>>)
    ensures multiset(InsertByWidth(im, s)) == multiset{im} + multiset(s)
    ensures |InsertByWidth(im, s)| == |s| + 1
    decreases |s|
  {
    if s != [] && im.width > s[0].width {
      InsertByWidthPermutes(im, s[1..]);
      assert s == [s[0]] + s[1..];
    }
  }

  /** Inserting splices `im` into `s` at one position and leaves every other image,
      of any width, in its order. */
  lemma {:induction false} InsertByWidthSplices<P>(im: Image<P>, s: seq<Image<P>>)
    ensures exists i | 0 <= i <= |s| :: InsertByWidth(im, s) == s[..i] + [im] + s[i..]
    decreases |s|
  {
    if s == [] || im.width <= s[0].width {
      assert InsertByWidth(im, s) == s[..0] + [im] + s[0..];
    } else {
      InsertByWidthSplices(im, s[1..]);
      var j :| 0 <= j <= |s[1..]| && InsertByWidth(im, s[1..]) == s[1..][..j] + [im] + s[1..][j..];
      assert s[..j + 1] == [s[0]] + s[1..][..j];
      assert s[j + 1..] == s[1..][j..];
      assert InsertByWidth(im, s) == s[..j + 1] + [im] + s[j + 1..];
    }
  }

  ghost predicate AtLeast<P>(w: int, s: seq<Image<P>>)
  {
    forall k | 0 <= k < |s| :: w <= s[k].width
  }

  /** The tail of a sorted sequence is sorted and bounded below by its head. */
  lemma {:induction false} SortedTail<P>(s: seq<Image<P>>)
    requires SortedByWidth(s) && s != []
    ensures SortedByWidth(s[1..]) && AtLeast(s[0].width, s[1..])
  {
    assert forall k | 0 <= k < |s| - 1 :: s[1..][k] == s[k + 1];
  }

  /** Inserting an image at least `w` wide keeps every image at least `w` wide. */
  lemma {:induction false} InsertByWidthAtLeast<P>(im: Image<P>, s: seq<Image<P>>, w: int)
    requires w <= im.width && AtLeast(w, s)
    ensures AtLeast(w, InsertByWidth(im, s))
    decreases |s|
  {
    if s != [] && im.width > s[0].width {
      assert AtLeast(w, s[1..]) by {
        assert forall k | 0 <= k < |s| - 1 :: s[1..][k] == s[k + 1];
      }
      InsertByWidthAtLeast(im, s[1..], w);
    }
  }

  /** An image no wider than any image of a sorted sequence can go in front of it. */
  lemma {:induction false} ConsSorted<P>(im: Image<P>, t: seq<Image<P>>)
    requires SortedByWidth(t)
    requires AtLeast(im.width, t)
    ensures SortedByWidth([im] + t)
  {
    var u := [im] + t;
    forall i, j | 0 <= i < j < |u|
      ensures u[i].width <= u[j].width
    {
      assert u[j] == t[j - 1];
      if i > 0 {
        assert u[i] == t[i - 1];
      }
    }
  }

  /** Inserting `im` puts it in front of every image of its own width and moves no other image. */
  lemma {:induction false} InsertByWidthStable<P>(im: Image<P>, s: seq<Image<P>>, w: int)
    ensures WithWidth(InsertByWidth(im, s), w) == WithWidth([im] + s, w)
    decreases |s|
  {
    var t := InsertByWidth(im, s);
    if s == [] || im.width <= s[0].width {
    } else {
      InsertByWidthStable(im, s[1..], w);
      assert t[1..] == InsertByWidth(im, s[1..]);
      assert ([im] + s)[1..] == s;
      assert ([im] + s[1..])[1..] == s[1..];
    }
  }

  /** The insertion sort is a stable sort by width. */
  lemma {:induction false} SortByWidthIsStableSort<P>(s: seq<Image<P>>)
    ensures StableSortOf(SortByWidth(s), s)
    ensures |SortByWidth(s)| == |s|
  {
    SortByWidthSorted(s);
    SortByWidthPermutes(s);
    forall w
      ensures WithWidth(SortByWidth(s), w) == WithWidth(s, w)
    {
      SortByWidthStable(s, w);
    }
  }

  lemma {:induction false} SortByWidthSorted<P>(s: seq<Image<P>>)
    ensures SortedByWidth(SortByWidth(s))
    decreases |s|
  {
    if s != [] {
      SortByWidthSorted(s[1..]);
      InsertByWidthSorted(s[0], SortByWidth(s[1..]));
    }
  }

  lemma {:induction false} SortByWidthPermutes<P>(s: seq<Image<P>>)
    ensures multiset(SortByWidth(s)) == multiset(s)
    ensures |SortByWidth(s)| == |s|
    decreases |s|
  {
    if s != [] {
      SortByWidthPermutes(s[1..]);
      InsertByWidthPermutes(s[0], SortByWidth(s[1..]));
      assert s == [s[0]] + s[1..];
    }
  }

  /** The images of each width come out of the sort in the order they went in. */
  lemma {:induction false} SortByWidthStable<P>(s: seq<Image<P>>, w: int)
    ensures WithWidth(SortByWidth(s), w) == WithWidth(s, w)
    decreases |s|
  {
    if s != [] {
      var rest := SortByWidth(s[1..]);
      SortByWidthStable(s[1..], w);
      InsertByWidthStable(s[0], rest, w);
      assert ([s[0]] + rest)[1..] == rest;
    }
  }

  lemma {:induction false} WithWidthMember<P>(s: seq<Image<P>>, w: int, x: Image<P>)
    requires x in WithWidth(s, w)
    ensures exists k | 0 <= k < |s| :: s[k] == x && x.width == w
    decreases |s|
  {
    if s[0].width == w && x == s[0] {
    } else {
      WithWidthMember(s[1..], w, x);
      var k :| 0 <= k < |s[1..]| && s[1..][k] == x && x.width == w;
      assert s[k + 1] == x;
    }
  }

  lemma WithWidthOfHead<P>(s: seq<Image<P>>)
    ensures s != [] ==> WithWidth(s, s[0].width) == [s[0]] + WithWidth(s[1..], s[0].width)
  {
  }

  /** A sorted sequence is determined by the order of the images within each
      width: two sorted sequences with the same images of every width, in the
      same order, are equal. So Python's `sorted`, which is stable, gives exactly
      `SortByWidth`. */
  lemma {:induction false} StableSortIsUnique<P>(a: seq<Image<P>>, b: seq<Image<P>>)
    requires SortedByWidth(a) && SortedByWidth(b)
    requires forall w :: WithWidth(a, w) == WithWidth(b, w)
    ensures a == b
    decreases |a| + |b|
  {
    WithWidthOfHead(a);
    WithWidthOfHead(b);
    if a == [] || b == [] {
    } else {
      HeadsAgree(a, b);
      SortedTail(a);
      SortedTail(b);
      StableSortIsUnique(a[1..], b[1..]);
      assert a == [a[0]] + a[1..] && b == [b[0]] + b[1..];
    }
  }

  /** Two sorted sequences with the same images of every width start with the
      same image, and what follows has the same images of every width. */
  lemma {:induction false} HeadsAgree<P>(a: seq<Image<P>>, b: seq<Image<P>>)
    requires SortedByWidth(a) && SortedByWidth(b) && a != [] && b != []
    requires forall w :: WithWidth(a, w) == WithWidth(b, w)
    ensures a[0] == b[0]
    ensures forall w :: WithWidth(a[1..], w) == WithWidth(b[1..], w)
  {
    var wa := a[0].width;
    HeadWidthsAgree(a, b);
    WithWidthOfHead(a);
    WithWidthOfHead(b);
    assert a[0] == WithWidth(a, wa)[0] == WithWidth(b, wa)[0] == b[0];
    forall w
      ensures WithWidth(a[1..], w) == WithWidth(b[1..], w)
    {
      if w == wa {
        assert WithWidth(a[1..], w) == WithWidth(a, w)[1..];
        assert WithWidth(b[1..], w) == WithWidth(b, w)[1..];
      } else {
        assert WithWidth(a, w) == WithWidth(a[1..], w);
        assert WithWidth(b, w) == WithWidth(b[1..], w);
      }
    }
  }

  /** Two sorted sequences with the same images of every width start with the same width. */
  lemma {:induction false} HeadWidthsAgree<P>(a: seq<Image<P>>, b: seq<Image<P>>)
    requires SortedByWidth(a) && SortedByWidth(b) && a != [] && b != []
    requires forall w :: WithWidth(a, w) == WithWidth(b, w)
    ensures a[0].width == b[0].width
  {
    var wa, wb := a[0].width, b[0].width;
    WithWidthOfHead(a);
    WithWidthOfHead(b);
    assert b[0] in WithWidth(b, wb);
    WithWidthMember(a, wb, b[0]);
    assert a[0] in WithWidth(a, wa);
    WithWidthMember(b, wa, a[0]);
  }

  /** Any stable sort by width of `s` is `SortByWidth(s)`. */
  lemma {:induction false} StableSortIsSortByWidth<P>(t: seq<Image<P>>, s: seq<Image<P>>)
    requires StableSortOf(t, s)
    ensures t == SortByWidth(s)
  {
    SortByWidthIsStableSort(s);
    StableSortIsUnique(t, SortByWidth(s));
  }

  /** Frames of one video share their dimensions; when all nine images are
      equally wide, the sort leaves them in key order. */
  lemma {:induction false} SortKeepsOrderOfEqualWidths<P>(s: seq<Image<P>>)
    requires forall k | 0 <= k < |s| :: s[k].width == s[0].width
    ensures SortByWidth(s) == s
  {
    StableSortIsSortByWidth(s, s);
  }

  // ----- the loader -----

  /** When each key 0 to 8 decodes to an image, the loader returns those nine
      images stably sorted by width: a permutation of them, ordered by width,
      with images of equal width in key order. */
  lemma {:induction false} FindOverlappingFramesSucceeds<F, P>(files: map<int, F>, decode: F -> Option<Image<P>>, images: seq<Image<P>>)
    requires |images| == SampleCount
    requires forall k | 0 <= k < SampleCount :: ReadSample(files, decode, k) == Some(images[k])
    ensures FindOverlappingFrames(files, decode).Success?
    ensures var r := FindOverlappingFrames(files, decode).value;
            |r| == SampleCount && StableSortOf(r, images) && r == SortByWidth(images)
  {
    var loaded := ReadSamples(files, decode);
    assert Values(loaded) == images;
    SortByWidthIsStableSort(images);
  }

  /** The first key among 0 to 8 that is missing or undecodable makes the key
      pass raise, naming that key. */
  lemma {:induction false} FindOverlappingFramesFails<F, P>(files: map<int, F>, decode: F -> Option<Image<P>>, key: nat)
    requires key < SampleCount && ReadSample(files, decode, key).None?
    requires forall k | 0 <= k < key :: ReadSample(files, decode, k).Some?
    ensures FindOverlappingFrames(files, decode) == Failure(NoShape(key))
  {
    var loaded := ReadSamples(files, decode);
    var m := FirstMissing(loaded);
    assert loaded[key].None?;
  }

  /** The count check at line 28 never fires: every failure is the key pass's. */
  lemma {:induction false} CountCheckUnreachable<F, P>(files: map<int, F>, decode: F -> Option<Image<P>>)
    ensures FindOverlappingFrames(files, decode).Failure? ==> FindOverlappingFrames(files, decode).error.NoShape?
  {
    var loaded := ReadSamples(files, decode);
    if FirstMissing(loaded).None? {
      SortByWidthIsStableSort(Values(loaded));
    }
  }

  /** Only the artifacts under keys 0 to 8 are read: removing every other key
      (the tenth sample and beyond, or stale files with other keys) changes nothing. */
  lemma {:induction false} ReadsOnlyKeysBelowNine<F, P>(files: map<int, F>, decode: F -> Option<Image<P>>)
    ensures FindOverlappingFrames(files, decode)
            == FindOverlappingFrames(map k | k in files && 0 <= k < SampleCount :: files[k], decode)
  {
    var kept := map k | k in files && 0 <= k < SampleCount :: files[k];
    assert ReadSamples(files, decode) == ReadSamples(kept, decode);
  }

  // ----- the intended loader -----

  lemma {:induction false} PresentAllSome<T>(s: seq<Option<T>>)
    ensures |Present(s)| <= |s|
    ensures |Present(s)| == |s| <==> forall k | 0 <= k < |s| :: s[k].Some?
    ensures (forall k | 0 <= k < |s| :: s[k].Some?) ==> Present(s) == Values(s)
    decreases |s|
  {
    if s != [] {
      PresentAllSome(s[1..]);
      if forall k | 0 <= k < |s| :: s[k].Some? {
        assert Values(s) == [s[0].value] + Values(s[1..]);
      }
    }
  }

  /** How many of the first `n` entries are not `None`, counted by position. */
  function CountSome<T>(s: seq<Option<T>>, n: nat): nat
    requires n <= |s|
  {
    if n == 0 then 0 else CountSome(s, n - 1) + (if s[n - 1].Some? then 1 else 0)
  }

  /** Counting a prefix of a longer list counts the same entries. */
  lemma {:induction false} CountSomePrefix<T>(s: seq<Option<T>>, m: nat, n: nat)
    requires n <= m <= |s|
    ensures CountSome(s[..m], n) == CountSome(s, n)
    decreases n
  {
    if n > 0 {
      CountSomePrefix(s, m, n - 1);
    }
  }

  /** The filter keeps exactly the entries that are not `None`. */
  lemma {:induction false} PresentCount<T>(s: seq<Option<T>>)
    ensures |Present(s)| == CountSome(s, |s|)
    decreases |s|
  {
    if s != [] {
      var n := |s| - 1;
      var front, last := s[..n], [s[n]];
      assert s == front + last;
      PresentAppend(front, last);
      PresentCount(front);
      CountSomePrefix(s, n, n);
      assert last[1..] == [];
    }
  }

  /** The intended loader fails exactly when a key 0 to 8 cannot be read, and then
      with the count error, naming nine and the number it could read; when every
      key can be read it agrees with the loader as written. */
  lemma {:induction false} FilteredLoaderReportsCount<F, P>(files: map<int, F>, decode: F -> Option<Image<P>>)
    ensures var r := FindOverlappingFramesFiltered(files, decode);
            && (r.Failure? <==> exists k | 0 <= k < SampleCount :: ReadSample(files, decode, k).None?)
            && (r.Failure? ==> r.error.CountMismatch? && r.error.expected == SampleCount && r.error.actual < SampleCount)
            && (r.Failure? ==> r.error.actual == CountSome(ReadSamples(files, decode), SampleCount))
            && (r.Success? ==> r == FindOverlappingFrames(files, decode))
  {
    var loaded := ReadSamples(files, decode);
    PresentAllSome(loaded);
    PresentCount(loaded);
    if forall k | 0 <= k < SampleCount :: ReadSample(files, decode, k).Some? {
      assert forall k | 0 <= k < |loaded| :: loaded[k].Some?;
      SortByWidthIsStableSort(Values(loaded));
    } else {
      var k :| 0 <= k < SampleCount && ReadSample(files, decode, k).None?;
      assert loaded[k].None?;
    }
  }

  /** When samples 0 to 7 can be read and sample 8 cannot, the loader as written
      raises on key 8 inside the sort, where the filter and count check were
      meant to report eight images out of nine. */
  lemma {:induction false} LastSampleMissing<F, P>(files: map<int, F>, decode: F -> Option<Image<P>>)
    requires forall k | 0 <= k < 8 :: ReadSample(files, decode, k).Some?
    requires ReadSample(files, decode, 8).None?
    ensures FindOverlappingFrames(files, decode) == Failure(NoShape(8))
    ensures FindOverlappingFramesFiltered(files, decode) == Failure(CountMismatch(9, 8))
  {
    FindOverlappingFramesFails(files, decode, 8);
    var loaded := ReadSamples(files, decode);
    var front := loaded[..8];
    var last: seq<Option<Image<P>>> := [None];
    assert loaded == front + last;
    PresentAppend(front, last);
    PresentAllNone(last);
    PresentAllSome(front);
  }

  /** A directory holding the artifacts 0 to 7 only, each of which decodes. */
  lemma {:induction false} MissingSampleCounterexample()
    ensures var files := map[0 := 0, 1 := 1, 2 := 2, 3 := 3, 4 := 4, 5 := 5, 6 := 6, 7 := 7];
            var decode := (x: int) => Some(Image(1, [[x]]));
            && FindOverlappingFrames(files, decode) == Failure(NoShape(8))
            && FindOverlappingFramesFiltered(files, decode) == Failure(CountMismatch(9, 8))
  {
    var files := map[0 := 0, 1 := 1, 2 := 2, 3 := 3, 4 := 4, 5 := 5, 6 := 6, 7 := 7];
    var decode := (x: int) => Some(Image(1, [[x]]));
    assert forall k | 0 <= k < 8 :: k in files;
    LastSampleMissing(files, decode);
  }

  lemma {:induction false} PresentAppend<T>(s: seq<Option<T>>, t: seq<Option<T>>)
    ensures Present(s + t) == Present(s) + Present(t)
    decreases |s|
  {
    if s == [] {
      assert s + t == t;
    } else {
      assert (s + t)[1..] == s[1..] + t;
      PresentAppend(s[1..], t);
    }
  }

  lemma {:induction false} PresentAllNone<T>(t: seq<Option<T>>)
    requires forall k | 0 <= k < |t| :: t[k].None?
    ensures Present(t) == []
    decreases |t|
  {
    if t != [] {
      PresentAllNone(t[1..]);
    }
  }
}
