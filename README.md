# create_pano, modelled in Dafny

`create_pano.py` turns a panning video into one wide image in three steps:

1. **Frame sampler** (`extract_frames`). It reads the video once, front to back. Every `fps // frame_rate`-th frame is written to a directory as `frame_<q>.jpg`, where `q` is `frame_count // interval`.
2. **Loader** (`find_overlapping_frames`). It reads the samples keyed 0 to 8 back, sorts them by width, and insists on exactly nine.
3. **Stitcher** (`stitch_frames`). It starts from the first image and glues on the right third of every later image. The cut is at column `2 * (width // 3)`.

`main` runs the three steps in order.

The project is organised by module:

| file | module | what it holds |
|---|---|---|
| `wrappers.dfy` | `Wrappers` | `Option`, `Result`, `Outcome` |
| `pyint.dfy` | `PyInt` | Python's floor `//` and `%`, and the arithmetic facts the sampler needs |
| `raster.dfy` | `Raster` | an image as a width plus rows of pixels; `im[:, c:]` as `ColumnsFrom`; `np.concatenate(..., axis=1)` as `Beside` |
| `sampler.dfy` | `Sampler` | the artifact directory as a class; the sampling loop as a method, specified by the functions `Persisted` and `WrittenKeys` |
| `loader.dfy` | `Loader` | the loader as pure functions: key pass, stable width sort, count check |
| `stitcher.dfy` | `Stitcher` | the stitching fold (`Stitch`), its loop (`StitchFrames`), geometry and provenance |
| `pipeline.dfy` | `Pipeline` | a fresh extraction followed by the loader, as `main` chains them |

How the sampler is modelled:
- `ExtractFrames` is an imperative method with a `while` loop.
- It changes an `ArtifactDir` object: `files` maps keys to stored frames, and the ghost `writes` logs every `imwrite` key in order.
- The loop invariant ties the directory to `Persisted` and the log to `WrittenKeys`.
- Both functions are defined over the number of frames handled so far.
- The directory may hold files from an earlier run, and the model keeps them.

How the loader is modelled:
- It takes the directory map and a `decode` function. `decode` stands for `cv2.imread` on one stored artifact; `None` means unreadable.
- Python evaluates the sort key `x.shape[1]` on every entry before sorting. So a missing sample raises inside `sorted`, before the `None` filter on line 26 can run.
- The model keeps that order: its first failure is `NoShape(k)` for the first missing key `k`.
- It is proved that the count check on line 28 can never fire.

Keys are `int`, not `nat`. A negative `frame_rate` gives a negative interval, and Python's floor division then produces the keys 0, -1, -2, …

## Model

| member | source | states |
|---|---|---|
| `PyInt.FloorDiv` | create_pano.py:8 | Python's `//`, which rounds toward negative infinity. It has no contract of its own; `PyInt.FloorModRange` and `PyInt.MultipleIff` state what it means. |
| `PyInt.FloorMod` | create_pano.py:15 | Python's `%`, defined as what remains after `b * (a // b)`. `PyInt.FloorModRange` states its sign and range. |
| `Sampler.Persisted` | create_pano.py:11-18 | The directory after the loop has handled the first `count` frames. Its contract: writing never removes an artifact that was already there. `Sampler.PersistedAt` and `Sampler.StoredFrames` state exactly which keys it holds and what is under each. |
| `Sampler.WrittenKeys` | create_pano.py:11-18 | The keys of the `imwrite` calls made for the first `count` frames, in call order. Its contract: at most one write per frame. `Sampler.WrittenKeysAreConsecutive` gives the exact sequence. |
| `Sampler.ExtractFrames` | create_pano.py:5-19 | A zero `frame_rate` raises before any frame is read. A zero interval raises exactly when the capture is open and the stream has a frame. An unopened capture or an error leaves the directory untouched. Otherwise the directory becomes `Persisted(...)` and the write log grows by `WrittenKeys(...)`. |
| `Sampler.ArtifactDir.Write` | create_pano.py:16-17 | `imwrite` replaces whatever was stored under the key and logs one write. |
| `Sampler.PersistedAt` | create_pano.py:15-17 | After `count` frames, key `q` exists iff it existed before or `0 <= q * interval < count`. If so it holds frame `q * interval`; otherwise it keeps its old contents. |
| `Sampler.StoredFrames` | create_pano.py:15-17 | Each frame `k` with `k % interval == 0` is stored under `k // interval`. Every new key `q` holds frame `q * interval`, which is such a frame. |
| `Sampler.MultipleOfInterval` | create_pano.py:15-16 | For an index `k >= 0`, Python's `%` is zero iff `k` is a multiple of `abs(interval)`, and `//` is then the quotient, negated for a negative interval. |
| `Sampler.WrittenKeysAreConsecutive` | create_pano.py:11-18 | The writes go to keys 0, 1, 2, … (0, -1, -2, … for a negative interval), in that order. There are exactly `ceil(n / abs(interval))` of them, so the keys are contiguous and none repeats. |
| `Sampler.SampleKeysFromEmptyDir` | create_pano.py:10-18 | Starting from an empty directory with a positive interval, the keys are exactly 0 … `ceil(n / interval) - 1`, and there are `ceil(n / interval)` samples. |
| `Sampler.TenSecondClip` | create_pano.py:7-18 | 300 frames at 30 fps with `frame_rate` 1 give interval 30, writes to keys 0 … 9 in order, and a directory holding exactly those ten keys. |
| `PyInt.FloorModRange` | create_pano.py:15-16 | `a == b * (a // b) + a % b`, and the remainder takes the divisor's sign. |
| `PyInt.MultipleIff` | create_pano.py:15-16 | `q * b == k` iff Python finds `k % b == 0` and `k // b == q`. |
| `PyInt.MultipleBelowIff` | create_pano.py:15-16 | `0 <= q * d < n` iff `0 <= q < ceil(n / d)`. |
| `Loader.ReadSample` | create_pano.py:25 | `cv2.imread` on `frame_<key>.jpg`: `None` when there is no artifact under the key or it does not decode. It has no contract of its own; `Loader.FindOverlappingFramesSucceeds` and `Loader.FindOverlappingFramesFails` state how its results decide the loader's. |
| `Loader.ReadSamples` | create_pano.py:25 | The list comprehension over `range(9)`: it has exactly nine entries, one per key 0 … 8. `Loader.ReadsOnlyKeysBelowNine` states that no other key matters. |
| `Loader.FindOverlappingFrames` | create_pano.py:23-32 | The loader as written: key pass, stable sort, filter, count check. Its contract: a success holds nine images. `Loader.FindOverlappingFramesSucceeds`, `Loader.FindOverlappingFramesFails` and `Loader.CountCheckUnreachable` state its full behaviour. |
| `Loader.FindOverlappingFramesFiltered` | create_pano.py:26-29 | The corrected loader: filter first, then the count check, then the sort. It has no contract of its own; `Loader.FilteredLoaderReportsCount` states its behaviour. |
| `Loader.InsertByWidth` | create_pano.py:25 | One insertion step of the stable sort. Its contract: it adds exactly one entry. `Loader.InsertByWidthSorted`, `Loader.InsertByWidthPermutes`, `Loader.InsertByWidthSplices` and `Loader.InsertByWidthStable` state what it does. |
| `Loader.SortByWidth` | create_pano.py:25 | `sorted(..., key=lambda x: x.shape[1])` as a stable insertion sort. It has no contract of its own; `Loader.SortByWidthIsStableSort` and `Loader.StableSortIsSortByWidth` state that it is Python's stable sort by width. |
| `Loader.Present` | create_pano.py:26 | `[img for img in images if img is not None]`. It has no contract of its own; `Loader.PresentAllSome`, `Loader.PresentAppend` and `Loader.PresentCount` state what it keeps. |
| `Loader.FirstMissing` | create_pano.py:25 | The key pass raises at the first `None`. The result is `None` iff every entry has a shape; otherwise it is the least index of a `None`. |
| `Loader.InsertByWidthSorted` | create_pano.py:25 | Inserting into a width-sorted list keeps it sorted. |
| `Loader.InsertByWidthPermutes` | create_pano.py:25 | Inserting adds exactly the one image. |
| `Loader.InsertByWidthSplices` | create_pano.py:25 | Inserting puts the new image at one position and leaves all other images, of any width, in their order. |
| `Loader.InsertByWidthStable` | create_pano.py:25 | Among images of the inserted image's width, it goes first; images of the same width keep their order. |
| `Loader.SortByWidthIsStableSort` | create_pano.py:25 | The width sort returns a permutation of its input, ordered by width. Images of equal width keep their input order, as Python's stable `sorted` promises. |
| `Loader.SortByWidthStable` | create_pano.py:25 | For every width, the images of that width leave the sort in the order they entered it. |
| `Loader.StableSortIsUnique` | create_pano.py:25 | Two width-sorted lists that agree on the images of every width, in order, are equal. |
| `Loader.StableSortIsSortByWidth` | create_pano.py:25 | Any stable sort by width of a list equals `SortByWidth` of it, so the model's sort is Python's. |
| `Loader.SortKeepsOrderOfEqualWidths` | create_pano.py:25 | When all images are equally wide, as frames of one video are, the sort leaves them in key order. |
| `Loader.FindOverlappingFramesSucceeds` | create_pano.py:25-32 | When keys 0 … 8 all decode, the result is those nine images, stably sorted by width. |
| `Loader.FindOverlappingFramesFails` | create_pano.py:25 | The first key among 0 … 8 that is missing or undecodable raises, naming that key. |
| `Loader.CountCheckUnreachable` | create_pano.py:25-29 | Every failure comes from the key pass; the count error is never raised. |
| `Loader.ReadsOnlyKeysBelowNine` | create_pano.py:25 | Removing every key outside 0 … 8 from the directory does not change the result. |
| `Loader.PresentAllSome` | create_pano.py:26 | The filter never lengthens the list. It keeps the full length iff no entry is `None`, and then it just unwraps the entries. |
| `Loader.PresentAppend` | create_pano.py:26 | Filtering a concatenation is concatenating the filtered parts. |
| `Loader.PresentCount` | create_pano.py:26 | The filter keeps exactly as many images as there are entries that are not `None`, counted position by position. |
| `Loader.FilteredLoaderReportsCount` | create_pano.py:26-29 | The corrected loader fails iff some key 0 … 8 cannot be read. It then raises the count error naming 9 and the number of keys 0 … 8 that could be read, which is below 9. When it succeeds it agrees with the loader as written. |
| `Loader.LastSampleMissing` | create_pano.py:25-29 | If samples 0 … 7 read and sample 8 does not, the loader as written raises `NoShape(8)`, while the corrected one reports eight of nine. |
| `Loader.MissingSampleCounterexample` | create_pano.py:25-29 | A concrete directory with artifacts 0 … 7 only, each decoding, shows the two outcomes above. |
| `Raster.ColumnsFrom` | create_pano.py:45 | Slicing columns keeps the array rectangular and keeps its height. |
| `Raster.Beside` | create_pano.py:48 | Concatenating two equally tall arrays side by side keeps the result rectangular and of the same height. |
| `Stitcher.RightThird` | create_pano.py:41-45 | The slice keeps every row and `w - 2 * (w // 3)` columns. |
| `Stitcher.KeptColumnsBounds` | create_pano.py:41-45 | The slice keeps `w // 3 + w % 3` columns. That is between `w // 3` and `w`, exactly a third only when 3 divides `w`, and at least one column of any non-empty image. |
| `Stitcher.AppendSlice` | create_pano.py:41-48 | One pass of the loop. It succeeds iff the slice is as tall as the panorama. The result is rectangular, as tall as the panorama, and `w - 2 * (w // 3)` columns wider. Otherwise it fails with the slice's index and both heights. |
| `Stitcher.Stitch` | create_pano.py:34-48 | A successful stitch has a non-empty input, and its panorama is rectangular and as tall as the first image. |
| `Stitcher.StitchSucceedsIff` | create_pano.py:35-48 | Stitching succeeds iff the list is non-empty and every image is as tall as the first. |
| `Stitcher.StitchFailsAtFirstMismatch` | create_pano.py:48 | The first image whose height differs from the first image's makes `np.concatenate` fail. The error names that index and both heights. |
| `Stitcher.FailurePersists` | create_pano.py:37-48 | Once a prefix fails, the whole list fails with the same error. |
| `Stitcher.StitchStep` | create_pano.py:37-48 | One more loop pass appends the right third of the next image to the panorama of the prefix. |
| `Stitcher.StitchGeometry` | create_pano.py:35-48 | The panorama's height is the first image's. Its width is `w0 + sum(wi - 2 * (wi // 3))` over the later images. |
| `Stitcher.WidthNeverShrinks` | create_pano.py:37-48 | The panorama width never decreases along the loop. It grows strictly with every image that has a column. |
| `Stitcher.UniformPanoramaWidth` | create_pano.py:37-48 | With all images `w` wide, the panorama is `w + (n - 1) * (w - 2 * (w // 3))` wide. |
| `Stitcher.StitchProvenance` | create_pano.py:35-48 | Each panorama row starts with the first image's row. The columns from `Offset(i)` to `Offset(i + 1)` are image `i`'s row from column `2 * (w // 3)` on. |
| `Stitcher.StitchFrames` | create_pano.py:34-52 | The loop returns exactly the fold `Stitch`. It succeeds iff the list is non-empty and the heights agree, and then it has the first image's height and `PanoramaWidth`. |
| `Pipeline.SampleHoldsFrame` | create_pano.py:65-66 | After a fresh extraction, the loader reads key `k` as the decoded frame `k * interval`. |
| `Pipeline.ShortVideoFails` | create_pano.py:65-66 | A video too short for nine samples makes the loader raise on key `ceil(n / interval)`, the first key never written, even when every frame decodes. The corrected loader reports that many images out of nine. |
| `Pipeline.LongVideoLoads` | create_pano.py:65-66 | With more than `8 * interval` frames, the loader returns the decoded frames 0, interval, …, `8 * interval`, stably sorted by width. The corrected loader returns the same. |

## Left out

- Video capture is not modelled: `cv2.VideoCapture`, `cap.read()` and `cap.release()`. The capture becomes the parameter `isOpened` plus the finite sequence of frames `read` would return. A stream that stops opening mid-way is not modelled.
- `ExtractFrames`: `frame_rate` is an int. The default `frame_rate=1` of line 5 is simply one value of this parameter. Python would also accept a float such as `0.5`. Then `fps // frame_rate` is a float like `60.0`, and line 16 names the files `frame_0.0.jpg`, `frame_1.0.jpg`, … The loader at line 25 never reads those names, so with a float rate it fails on key 0. The model does not capture this behaviour.
- `int(cap.get(cv2.CAP_PROP_FPS))` is not modelled: the reported frames per second, a float truncated to `int`, is an integer parameter.
- The JPEG codec is not modelled: `cv2.imwrite` stores the frame as given, and `cv2.imread` is the parameter `decode`. No claim is made that a decoded image equals the written frame.
- `save_panorama`, `os.makedirs`, `os.path.join` and the `print` calls have no effect on the modelled state and are not modelled.
- `main` is covered only as the composition in the Pipeline lemmas, for a fresh directory and a positive interval.
- numpy memory layout is not modelled. The channel axis is folded into the pixel type, so a channel-count mismatch in `np.concatenate` is not modelled.
- Each later image adds `w - 2 * (w // 3)` columns, which is `w // 3 + w % 3`, not exactly a third of `w`. The model follows that code.

## Findings

| source | as written | input that shows it | evidently intended | confidence | as-written member | corrected member |
|---|---|---|---|---|---|---|
| create_pano.py:25-29 | The sort key `x.shape[1]` runs on every entry before the `None` filter. A missing or unreadable sample raises AttributeError inside `sorted`, so the filter and the "Expected exactly 9 images" check never act. | A directory holding `frame_0.jpg` … `frame_7.jpg` only, for example a video shorter than nine sampling intervals: the loader raises on key 8. | Filter out unreadable samples first, then raise the count error naming 9 and 8, then sort. | not executed | `Loader.MissingSampleCounterexample` | `Loader.FilteredLoaderReportsCount` |
