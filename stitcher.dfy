/** `stitch_frames`: the panorama starts as the first image, and each later
    image contributes its right third (the columns from `2 * (width // 3)` on),
    glued onto the right edge. No blending and no alignment: the left two
    thirds of every later image are assumed to repeat what is already there. */
module Stitcher {
  import opened Wrappers
  import opened Raster

  datatype StitchError =
      /** `images[0]` on an empty list (Python's IndexError). */
    | EmptyImageList
      /** `np.concatenate` refusing a slice whose height is not the panorama's:
          `index` is the slice's position in the list. */
    | HeightMismatch(index: nat, panoramaHeight: nat, sliceHeight: nat)

  /** How many columns `img[:, 2 * (w // 3):, :]` keeps of a `w`-wide image. */
  function KeptColumns(w: nat): nat
  {
    w - 2 * (w / 3)
  }

  /** The right third of an image, as the loop cuts it. */
  function RightThird<P>(im: Image<P>): (r: Image<P>)
    requires im.WellFormed()
    ensures r.WellFormed() && r.Height() == im.Height() && r.width == KeptColumns(im.width)
  {
    ColumnsFrom(im, 2 * (im.width / 3))
  }

  ghost predicate AllWellFormed<P>(images: seq<Image<P>>)
  {
    forall i | 0 <= i < |images| :: images[i].WellFormed()
  }

  /** Every image is as tall as the first one. */
  ghost predicate SameHeights<P>(images: seq<Image<P>>)
    requires |images| > 0
  {
    forall i | 0 < i < |images| :: images[i].Height() == images[0].Height()
  }

  /** One pass of the loop: append the right third of `im`, the image at list position `index`. */
  function AppendSlice<P>(panorama: Image<P>, im: Image<P>, index: nat): (r: Result<Image<P>, StitchError>)
    requires panorama.WellFormed() && im.WellFormed()
    ensures r.Success? <==> panorama.Height() == im.Height()
    ensures r.Success? ==> && r.value.WellFormed() && r.value.Height() == panorama.Height()
                           && r.value.width == panorama.width + KeptColumns(im.width)
    ensures r.Failure? ==> r.error == HeightMismatch(index, panorama.Height(), im.Height())
  {
    var slice := RightThird(im);
    if panorama.Height() == slice.Height() then Success(Beside(panorama, slice))
    else Failure(HeightMismatch(index, panorama.Height(), slice.Height()))
  }

  /** What `stitch_frames` returns or raises, as a left fold over the list. */
  function Stitch<P>(images: seq<Image<P>>): (r: Result<Image<P>, StitchError>)
    requires AllWellFormed(images)
    ensures r.Success? ==> |images| > 0 && r.value.WellFormed() && r.value.Height() == images[0].Height()
    decreases |images|
  {
    if |images| == 0 then Failure(EmptyImageList)
    else if |images| == 1 then Success(images[0])
    else
      var n := |images| - 1;
      match Stitch(images[..n])
      case Failure(e) => Failure(e)
      case Success(panorama) => AppendSlice(panorama, images[n], n)
  }

  /** The columns contributed by every image after the first, summed from the left. */
  function SliceWidths<P>(images: seq<Image<P>>): nat
  {
    if images == [] then 0 else KeptColumns(images[0].width) + SliceWidths(images[1..])
  }

  /** `w0 + sum of (wi - 2 * (wi // 3))` over the later images. */
  function PanoramaWidth<P>(images: seq<Image<P>>): nat
    requires |images| > 0
  {
    images[0].width + SliceWidths(images[1..])
  }

  lemma {:induction false} SliceWidthsSnoc<P>(images: seq<Image<P>>, im: Image<P>)
    ensures SliceWidths(images + [im]) == SliceWidths(images) + KeptColumns(im.width)
    decreases |images|
  {
    if images == [] {
      assert [im][1..] == [];
    } else {
      assert (images + [im])[1..] == images[1..] + [im];
      SliceWidthsSnoc(images[1..], im);
    }
  }

  /** The width one more image adds to the panorama. */
  lemma {:induction false} PanoramaWidthStep<P>(images: seq<Image<P>>, i: nat)
    requires 1 <= i < |images|
    ensures PanoramaWidth(images[..i + 1]) == PanoramaWidth(images[..i]) + KeptColumns(images[i].width)
  {
    assert images[..i + 1][1..] == images[..i][1..] + [images[i]];
    SliceWidthsSnoc(images[..i][1..], images[i]);
  }

  /** A cut at `2 * (w // 3)` keeps `w // 3 + w % 3` columns: exactly a third only
      when 3 divides the width, and at least one column of any non-empty image. */
  lemma KeptColumnsBounds(w: nat)
    ensures KeptColumns(w) == w / 3 + w % 3
    ensures w / 3 <= KeptColumns(w) <= w
    ensures KeptColumns(w) == w / 3 <==> w % 3 == 0
    ensures w > 0 ==> KeptColumns(w) > 0
  {
  }

  /** The panorama never gets narrower as the fold goes on, and it gets strictly
      wider with every image that has at least one column. */
  lemma {:induction false} WidthNeverShrinks<P>(images: seq<Image<P>>, i: nat, j: nat)
    requires 1 <= i <= j <= |images|
    ensures PanoramaWidth(images[..i]) <= PanoramaWidth(images[..j])
    ensures i < j && (forall k | i <= k < j :: images[k].width > 0) ==> PanoramaWidth(images[..i]) < PanoramaWidth(images[..j])
    decreases j - i
  {
    if i < j {
      PanoramaWidthStep(images, j - 1);
      KeptColumnsBounds(images[j - 1].width);
      WidthNeverShrinks(images, i, j - 1);
    }
  }

  /** When every image is `w` wide the panorama is `w + (n - 1) * (w - 2 * (w // 3))` wide. */
  lemma {:induction false} UniformPanoramaWidth<P>(images: seq<Image<P>>, w: nat)
    requires |images| > 0
    requires forall i | 0 <= i < |images| :: images[i].width == w
    ensures PanoramaWidth(images) == w + (|images| - 1) * KeptColumns(w)
    decreases |images|
  {
    if |images| > 1 {
      var n := |images| - 1;
      UniformPanoramaWidth(images[..n], w);
      PanoramaWidthStep(images, n);
      assert images[..n + 1] == images;
    }
  }

  /** Once a prefix of the list fails, the whole fold fails with the same error. */
  lemma {:induction false} FailurePersists<P>(images: seq<Image<P>>, k: nat)
    requires AllWellFormed(images)
    requires 1 <= k <= |images|
    requires Stitch(images[..k]).Failure?
    ensures Stitch(images) == Stitch(images[..k])
    decreases |images|
  {
    if k < |images| {
      var n := |images| - 1;
      assert images[..n][..k] == images[..k];
      FailurePersists(images[..n], k);
    } else {
      assert images[..k] == images;
    }
  }

  /** `stitch_frames` returns a panorama exactly when the list is not empty and
      every image is as tall as the first. */
  lemma {:induction false} StitchSucceedsIff<P>(images: seq<Image<P>>)
    requires AllWellFormed(images)
    ensures Stitch(images).Success? <==> |images| > 0 && SameHeights(images)
    decreases |images|
  {
    if |images| > 1 {
      var n := |images| - 1;
      StitchSucceedsIff(images[..n]);
      assert SameHeights(images) <==> SameHeights(images[..n]) && images[n].Height() == images[0].Height();
    }
  }

  /** One more pass of the loop, applied to the panorama of the first `i` images. */
  lemma {:induction false} StitchStep<P>(images: seq<Image<P>>, i: nat, panorama: Image<P>)
    requires AllWellFormed(images)
    requires 0 < i < |images|
    requires Stitch(images[..i]) == Success(panorama)
    ensures Stitch(images[..i + 1]) == AppendSlice(panorama, images[i], i)
  {
    assert images[..i + 1][..i] == images[..i];
  }

  /** The first image whose height differs from the first image's is the one the
      error names, with the two heights `np.concatenate` compared. */
  lemma {:induction false} StitchFailsAtFirstMismatch<P>(images: seq<Image<P>>, i: nat)
    requires AllWellFormed(images)
    requires 0 < i < |images| && images[i].Height() != images[0].Height()
    requires forall j | 0 < j < i :: images[j].Height() == images[0].Height()
    ensures Stitch(images) == Failure(HeightMismatch(i, images[0].Height(), images[i].Height()))
  {
    var prefix := images[..i];
    assert AllWellFormed(prefix);
    assert SameHeights(prefix) by {
      forall j | 0 < j < i
        ensures prefix[j].Height() == prefix[0].Height()
      {
        assert prefix[j] == images[j];
      }
    }
    StitchSucceedsIff(prefix);
    var acc := Stitch(prefix).value;
    assert acc.Height() == images[0].Height();
    StitchStep(images, i, acc);
    assert RightThird(images[i]).Height() == images[i].Height();
    FailurePersists(images, i + 1);
  }

  /** The panorama is as tall as the first image and as wide as `PanoramaWidth` says. */
  lemma {:induction false} StitchGeometry<P>(images: seq<Image<P>>, panorama: Image<P>)
    requires AllWellFormed(images)
    requires Stitch(images) == Success(panorama)
    ensures panorama.Height() == images[0].Height()
    ensures panorama.width == PanoramaWidth(images)
    decreases |images|
  {
    if |images| > 1 {
      var n := |images| - 1;
      var acc := Stitch(images[..n]).value;
      StitchGeometry(images[..n], acc);
      PanoramaWidthStep(images, n);
      assert images[..n + 1] == images;
    }
  }

  /** The column where the block of image `i` starts: the width of the panorama
      stitched from the first `i` images. */
  function Offset<P>(images: seq<Image<P>>, i: nat): nat
    requires 1 <= i <= |images|
  {
    PanoramaWidth(images[..i])
  }

  /** Unfolds the last pass of the loop: each row of the panorama is the row of
      the panorama of all but the last image, followed by the last image's right third. */
  lemma {:induction false} LastPass<P>(images: seq<Image<P>>, panorama: Image<P>, r: nat)
    requires AllWellFormed(images) && |images| > 1
    requires Stitch(images) == Success(panorama)
    requires r < panorama.Height()
    ensures Stitch(images[..|images| - 1]).Success?
    ensures var acc := Stitch(images[..|images| - 1]).value;
            r < acc.Height() && r < images[|images| - 1].Height()
            && |acc.rows[r]| == Offset(images, |images| - 1)
            && panorama.rows[r] == acc.rows[r] + images[|images| - 1].rows[r][2 * (images[|images| - 1].width / 3)..]
  {
    var n := |images| - 1;
    var acc := Stitch(images[..n]).value;
    StitchGeometry(images[..n], acc);
    assert panorama == Beside(acc, RightThird(images[n]));
  }

  /** Row `r` of the panorama begins with row `r` of the first image. */
  ghost predicate StartsWithFirstImage<P>(images: seq<Image<P>>, panorama: Image<P>, r: nat)
    requires |images| > 0
  {
    && r < panorama.Height() && r < images[0].Height()
    && images[0].width <= |panorama.rows[r]|
    && panorama.rows[r][..images[0].width] == images[0].rows[r]
  }

  /** In row `r` of the panorama, the columns from `Offset(images, i)` up to
      `Offset(images, i + 1)` are row `r` of image `i` from column `2 * (w // 3)` on. */
  ghost predicate BlockIsRightThird<P>(images: seq<Image<P>>, panorama: Image<P>, i: nat, r: nat)
    requires 1 <= i < |images|
  {
    && r < panorama.Height() && r < images[i].Height()
    && Offset(images, i) <= Offset(images, i + 1) <= |panorama.rows[r]|
    && 2 * (images[i].width / 3) <= |images[i].rows[r]|
    && panorama.rows[r][Offset(images, i)..Offset(images, i + 1)]
       == images[i].rows[r][2 * (images[i].width / 3)..]
  }

  lemma {:induction false} StitchFirstColumns<P>(images: seq<Image<P>>, panorama: Image<P>, r: nat)
    requires AllWellFormed(images)
    requires Stitch(images) == Success(panorama)
    requires r < panorama.Height()
    ensures StartsWithFirstImage(images, panorama, r)
    decreases |images|
  {
    StitchGeometry(images, panorama);
    if |images| > 1 {
      var n := |images| - 1;
      var acc := Stitch(images[..n]).value;
      LastPass(images, panorama, r);
      StitchFirstColumns(images[..n], acc, r);
    }
  }

  lemma {:induction false} StitchBlock<P>(images: seq<Image<P>>, panorama: Image<P>, i: nat, r: nat)
    requires AllWellFormed(images)
    requires Stitch(images) == Success(panorama)
    requires 1 <= i < |images| && r < panorama.Height()
    ensures BlockIsRightThird(images, panorama, i, r)
    decreases |images|
  {
    var n := |images| - 1;
    LastPass(images, panorama, r);
    if i < n {
      var acc := Stitch(images[..n]).value;
      StitchBlock(images[..n], acc, i, r);
      EarlierBlockKept(images, acc, images[n].rows[r][2 * (images[n].width / 3)..], panorama, i, r);
    } else {
      LastBlock(images, panorama, r);
    }
  }

  /** Appending to a row leaves the blocks of the earlier images where they were. */
  lemma {:induction false} EarlierBlockKept<P>(images: seq<Image<P>>, acc: Image<P>, tail: seq<P>, panorama: Image<P>, i: nat, r: nat)
    requires 1 <= i < |images| - 1
    requires BlockIsRightThird(images[..|images| - 1], acc, i, r)
    requires r < panorama.Height() && panorama.rows[r] == acc.rows[r] + tail
    ensures BlockIsRightThird(images, panorama, i, r)
  {
    var prefix := images[..|images| - 1];
    assert prefix[..i] == images[..i] && prefix[..i + 1] == images[..i + 1];
    assert prefix[i] == images[i];
    var lo, hi := Offset(images, i), Offset(images, i + 1);
    assert Offset(prefix, i) == lo && Offset(prefix, i + 1) == hi;
    SliceOfLeft(acc.rows[r], tail, lo, hi);
  }

  /** The last pass puts the right third of the last image at the right edge. */
  lemma {:induction false} LastBlock<P>(images: seq<Image<P>>, panorama: Image<P>, r: nat)
    requires AllWellFormed(images)
    requires Stitch(images) == Success(panorama)
    requires 1 < |images| && r < panorama.Height()
    ensures BlockIsRightThird(images, panorama, |images| - 1, r)
  {
    var n := |images| - 1;
    LastPass(images, panorama, r);
    var acc := Stitch(images[..n]).value;
    var tail := images[n].rows[r][2 * (images[n].width / 3)..];
    StitchGeometry(images, panorama);
    PanoramaWidthStep(images, n);
    assert images[..n + 1] == images;
    assert panorama.rows[r] == acc.rows[r] + tail;
    assert panorama.rows[r][Offset(images, n)..] == tail;
  }

  lemma SliceOfLeft<T>(a: seq<T>, b: seq<T>, lo: nat, hi: nat)
    requires lo <= hi <= |a|
    ensures (a + b)[lo..hi] == a[lo..hi]
  {
  }

  /** Where every column of the panorama comes from: the first image, then the
      right third of each later image, in list order. */
  lemma {:induction false} StitchProvenance<P>(images: seq<Image<P>>, panorama: Image<P>)
    requires AllWellFormed(images)
    requires Stitch(images) == Success(panorama)
    ensures |images| > 0
    ensures forall r | 0 <= r < panorama.Height() :: StartsWithFirstImage(images, panorama, r)
    ensures forall i, r | 1 <= i < |images| && 0 <= r < panorama.Height() :: BlockIsRightThird(images, panorama, i, r)
  {
    forall r | 0 <= r < panorama.Height()
      ensures StartsWithFirstImage(images, panorama, r)
    {
      StitchFirstColumns(images, panorama, r);
    }
    forall i, r | 1 <= i < |images| && 0 <= r < panorama.Height()
      ensures BlockIsRightThird(images, panorama, i, r)
    {
      StitchBlock(images, panorama, i, r);
    }
  }

  /** The loop of `stitch_frames`: `panorama` is rebound once per later image. */
  method StitchFrames<P>(images: seq<Image<P>>) returns (r: Result<Image<P>, StitchError>)
    requires AllWellFormed(images)
    ensures r == Stitch(images)
    ensures r.Success? <==> |images| > 0 && SameHeights(images)
    ensures r.Success? ==> r.value.Height() == images[0].Height() && r.value.width == PanoramaWidth(images)
  {
    if |images| == 0 {
      StitchSucceedsIff(images);
      return Failure(EmptyImageList);
    }
    var panorama := images[0];
    assert images[..1] == [images[0]];
    for i := 1 to |images|
      invariant Stitch(images[..i]) == Success(panorama)
    {
      var img := images[i];
      var thirdWidth := img.width / 3;
      var rightThird := ColumnsFrom(img, 2 * thirdWidth);
      StitchStep(images, i, panorama);
      if panorama.Height() != rightThird.Height() {
        r := Failure(HeightMismatch(i, panorama.Height(), rightThird.Height()));
        FailurePersists(images, i + 1);
        StitchSucceedsIff(images);
        return;
      }
      panorama := Beside(panorama, rightThird);
    }
    assert images[..|images|] == images;
    r := Success(panorama);
    StitchSucceedsIff(images);
    StitchGeometry(images, panorama);
  }
}
