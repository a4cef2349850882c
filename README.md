# Image folder to video: a verified model

`main.py` turns a folder of still images into one video. It discovers the image
files, sorts them in natural file-name order (`img2` before `img10`), decodes
them, brings every decoded image to three colour channels, reconciles their
sizes to a common frame size, and writes them in order to a video writer. The
writer is released exactly once after it has opened. Before the run, `main`
normalises the output path typed by the user.

The model is written in Dafny and has these modules:

- `Ascii` (`ascii.dfy`). The character classes the program relies on: the digit class of the regular expression, `str.isdigit`, `str.lower`, the whitespace of `str.strip`, and `int()` on a digit run.
- `Frames` (`frames.dfy`). Images as records of height, width and colour layout, with the raster left opaque.
  - The colour canonicalisation of the decode loop.
  - `resize` as a method with the source's two loops. `ScanTarget` is the min/max scan. `Resize` is the rebuilding loop.
  - Both are proved against the specification functions `TargetHeight`, `TargetWidth` and `Normalize`.
- `StableSort` (`stable_sort.dfy`). Python's `list.sort(key=...)` as a stable insertion sort, generic in the key and the order. It is proved to be a permutation, ordered, and stable.
- `NaturalSort` (`natural_sort.dfy`).
  - `re.split('([0-9]+)', s)` (`Split`), the key `natural_sort_key` (`Key`), and Python's `<` on strings and on lists of tokens.
  - A mixed int/str comparison is `None`, which stands for Python's `TypeError`; it is proved never to occur between two keys.
  - `SortNames` is the file-list sort.
- `OutputPath` (`output_path.dfy`). The expression at main.py:129-132: strip, default to `demo.mp4`, and fix the extension.
- `Video` (`video.dfy`).
  - `VideoSink` is the writer, a class with the fields `isOpen`, `frames` and `releaseCount`.
  - `DecodeAll` is the decode loop, proved against the specification `Survivors`.
  - `WriteAll` is the `try`/`finally` write loop.
  - `ImagesToVideo` is the whole function, proved equal to the pure description `Pipeline`.
  - Lemmas prove what the source promises about `Pipeline`.
- `Wrappers` (`wrappers.dfy`). `Option`.

The collaborators of `images_to_video` are parameters:

- `decode` stands for `cv2.imread`; `None` means the file could not be read.
- `recolor` stands for `cv2.cvtColor`'s pixel conversion.
- `resample` stands for `cv2.resize`'s interpolation.
- A `Backend` value says whether `cv2.VideoWriter` opens and which write, if any, raises.

The discovered file list is an input.

Three behaviours of the code are worth stating plainly, and the model states them as the code has them:

- A writer that fails to open is never explicitly released: `release()` is not called, because the exception is raised before the `try` block. `releaseCount` stays 0. The destruction of the writer object afterwards is not modelled.
- `cv2.VideoWriter_fourcc(*codec)` raises for a codec name that is not four characters long. This happens before any writer exists and is modelled as its own failure, `BadCodec`.
- The backslash branch of the output-path fix treats the whole path as a directory. `C:\clips\a.avi` becomes `C:\clips\a.avi\output.mp4`.

The writer's field `isOpen` holds what `isOpened()` reports (main.py:94).

## Model

| member | source | states |
|---|---|---|
| `Ascii.Lower` | main.py:40 | `str.lower` on one ASCII character: upper-case letters map to their lower-case letter, 32 code points higher; every other character, digits included, is unchanged |
| `Ascii.LowerString` | main.py:40 | `str.lower` on an ASCII string: the same length, with `Lower` applied at every position |
| `Ascii.DigitsValue` | main.py:40 | `int()` of a run of decimal digits, most significant digit first; `LeadingZeroValue` and `NumberedOrder` state its properties |
| `Ascii.LeadingZeroValue` | main.py:40 | `int()` of a digit run ignores a leading zero |
| `Frames.Canonicalise` | main.py:74-78 | a 2-D image and a 4-channel image become 3-channel; height and width are kept; any other layout passes unchanged; the result is always a layout the conversion leaves unchanged (`Unconverted`) |
| `Frames.CanonicaliseIdempotent` | main.py:74-78 | canonicalising twice is canonicalising once |
| `Frames.TargetHeight` | main.py:12-23 | the target height: the scan of the heights, seeded with the first image; `TargetBounds` proves it is the minimum or maximum, and `ScanTarget` proves that the loop computes it |
| `Frames.TargetWidth` | main.py:12-23 | the target width, in the same way; `TargetBounds` and `ScanTarget` state its properties |
| `Frames.Extreme` | main.py:12-23 | the scan of one axis is a lower bound of every element in the smallest mode and an upper bound in every other mode, and some element attains it |
| `Frames.TargetBounds` | main.py:12-23 | the target height and width are the per-axis minimum under `'smallest'` and the maximum under any other mode; each is attained by some image |
| `Frames.AxesIndependent` | main.py:16-23 | the axes are chosen independently: for 10x10, 20x20 and 5x30 images the targets are 5x10 and 20x30, and no single input has either size |
| `Frames.ScanTarget` | main.py:12-23 | the first loop returns exactly the target height and width of the list |
| `Frames.Fit` | main.py:28-32 | one step of the second loop: an image of the target shape is kept, any other becomes a resampled image of the target shape with its layout kept; `Resize` and `FitsAreNormalize` state its effect |
| `Frames.Normalize` | main.py:25-33 | the rebuilt list has the input's length; every element has the target shape and keeps the colour layout of its input |
| `Frames.UniformUnchanged` | main.py:26-32 | when all images share a shape, that shape is the target under any mode and the list comes back element for element equal |
| `Frames.NormalizeIdempotent` | main.py:5-34 | resizing an already resized list changes nothing and keeps the target |
| `Frames.SingleImage` | main.py:5-34 | a one-image list is its own target and comes back unchanged |
| `Frames.Resize` | main.py:5-34 | `resize`: same length; element i comes from input i; all elements have the target shape; an input already at the target is copied unchanged and any other is resampled to it; the returned size is (width, height) |
| `NaturalSort.Split` | main.py:41 | `re.split('([0-9]+)', s)`: the text before the first digit run, the run, then the split of the rest; `SplitShape` and `SplitUnique` characterise it as the only alternating list of pieces that joins back to `s` |
| `NaturalSort.NonDigitRun` | main.py:41 | the text piece before a digit run is the longest digit-free prefix |
| `NaturalSort.DigitRun` | main.py:41 | a captured run of `[0-9]+` is the longest digit prefix |
| `NaturalSort.AlternatingAt` | main.py:41 | a split has odd length, digit-free pieces at even positions, non-empty digit runs at odd positions, and non-empty text between two runs |
| `NaturalSort.SplitShape` | main.py:41 | `re.split('([0-9]+)', s)` alternates text and digit runs and its pieces join back to `s` |
| `NaturalSort.SplitUnique` | main.py:41 | every alternating list of pieces that joins to `s` is the split of `s`, so the split is determined by those two properties |
| `NaturalSort.ToToken` | main.py:40 | one element of the comprehension: `int(piece)` when the piece is a digit string, otherwise its lowercase text; `LowerToken` and `KeyShape` state its properties |
| `NaturalSort.Key` | main.py:37-41 | `natural_sort_key(s)`: one token per piece of the split, in order, with the same length as the split; `KeyShape`, `KeyIgnoresCase` and `KeyZeroAt` state its properties |
| `NaturalSort.KeyOfNumbered` | main.py:40-41 | the key of stem + number + extension is [lower(stem), int(number), lower(extension)] |
| `NaturalSort.KeyShape` | main.py:40-41 | a key has odd length; even positions hold lowercase digit-free text; odd positions hold the integer value of the digit run at that position of the split |
| `NaturalSort.LowerToken` | main.py:40 | lowercasing a piece does not change its token |
| `NaturalSort.KeyIgnoresCase` | main.py:40-41 | names that differ only in letter case have equal keys |
| `NaturalSort.KeyZeroAt` | main.py:40-41 | for every name and every position where one of its digit runs starts, inserting a zero there leaves the key unchanged: names that differ only in a leading zero of any digit run, in the directory part or the file name, have equal keys |
| `NaturalSort.KeyCons` | main.py:40-41 | the key of a text piece, a digit run and a rest not starting with a digit is the two pieces' tokens followed by the key of the rest |
| `NaturalSort.KeyLeadingZero` | main.py:40-41 | for a name made of a digit-free stem, one number and a digit-free extension, a leading zero on the number leaves the key unchanged |
| `NaturalSort.LeadingZeroExample` | main.py:40-41 | `img01.jpg` and `img1.jpg` have equal keys |
| `NaturalSort.StrLess` | main.py:63 | Python's `<` on strings: lexicographic by code point, a proper prefix first; `StrLessIrreflexive`, `StrLessTransitive` and `StrLessTotal` make it a strict total order |
| `NaturalSort.TokenLess` | main.py:63 | `<` on two tokens: integers by value, texts by `StrLess`, and `None` (Python's `TypeError`) for an integer against a string |
| `NaturalSort.KeyLess` | main.py:63 | `<` on two lists of tokens: the first unequal pair decides, and a proper prefix is smaller; `KeysAlwaysComparable` proves it is defined on any two keys, and `KeyLessIrreflexive`, `KeyLessTransitive` and `NameTie` state its order properties |
| `NaturalSort.KeysAlwaysComparable` | main.py:63 | two keys hold tokens of the same kind at every shared position, so on ASCII names comparing them never raises `TypeError` |
| `NaturalSort.NameLessIrreflexive` | main.py:63 | no name sorts before itself |
| `NaturalSort.NameLessTransitive` | main.py:63 | the key order is transitive |
| `NaturalSort.NameTie` | main.py:63 | two names are unordered by the key exactly when their keys are equal |
| `NaturalSort.NaturalOrderIsStrict` | main.py:63 | the key order is a strict order on the keys of all names |
| `NaturalSort.NumberedOrder` | main.py:40-41 | names that differ only in their number sort by the number's integer value |
| `NaturalSort.OneBeforeTwo` | main.py:63 | `img1.jpg` sorts before `img2.jpg` |
| `NaturalSort.TwoBeforeTen` | main.py:63 | `img2.jpg` sorts before `img10.jpg`, and not the other way round |
| `NaturalSort.TextOrderDiffers` | main.py:40-41 | as plain strings `img10.jpg < img2.jpg`: the order that the key corrects |
| `NaturalSort.SortNames` | main.py:63 | `image_files.sort(key=natural_sort_key)`: the stable sort under the key order; `SortNamesCorrect`, `SortExample` and `SortExampleMixed` state its properties |
| `NaturalSort.SortNamesCorrect` | main.py:63 | the sorted list is a permutation of the files; no name sorts before an earlier one; names with equal keys keep their input order |
| `NaturalSort.SortExample` | main.py:63 | `[img1.jpg, img10.jpg, img2.jpg]` sorts to `[img1.jpg, img2.jpg, img10.jpg]` |
| `NaturalSort.SortExampleMixed` | main.py:63 | `[img2.jpg, img10.jpg, img1.jpg]` sorts to `[img1.jpg, img2.jpg, img10.jpg]` |
| `StableSort.Insert` | main.py:63 | puts an element just before the first one with a greater key, so after every element it ties with; `InsertPermutes`, `InsertSorted` and `InsertWithKey` state its properties |
| `StableSort.Sort` | main.py:63 | `list.sort(key=...)` as insertion of each element in turn into the sorted prefix; `SortCorrect` states what it returns |
| `StableSort.SortCorrect` | main.py:63 | `list.sort` with a key under a strict order: the result is a permutation, it is ordered by key, and each key's elements keep their input order |
| `StableSort.SortThree` | main.py:63 | three elements with increasing keys, given first, third, second, come out in key order |
| `StableSort.SortMiddleFirst` | main.py:63 | three elements with increasing keys, given second, third, first, come out in key order |
| `OutputPath.TrimStart` | main.py:129 | removes exactly the leading whitespace: the result is a suffix of the input, everything cut is whitespace, and the result does not start with whitespace |
| `OutputPath.TrimEnd` | main.py:129 | removes exactly the trailing whitespace, symmetrically |
| `OutputPath.Strip` | main.py:129 | `str.strip()`: `TrimEnd` after `TrimStart`; `StripIsSlice`, `StripAround` and `StripUnchanged` state what it removes |
| `OutputPath.StripIsSlice` | main.py:129 | `strip()` returns a slice of its input with only whitespace removed on either side, and the slice neither starts nor ends with whitespace |
| `OutputPath.StripAround` | main.py:129 | whitespace around a middle part with non-space ends is all that `strip()` removes |
| `OutputPath.StripUnchanged` | main.py:129 | a string with non-space ends is its own strip |
| `OutputPath.RStripChar` | main.py:132 | `rstrip('\\')` leaves the prefix ending before the trailing backslashes; only backslashes are cut and the prefix does not end in one |
| `OutputPath.EndsWithMp4` | main.py:131 | `s.lower().endswith('.mp4')`: the last four characters of the lowercased string are `.mp4`; `EndsWithMp4Case` and `EndsWithMp4Last` state its properties |
| `OutputPath.EndsWithMp4Case` | main.py:131 | the extension test ignores case: `clip.MP4` passes and `clip.avi` does not |
| `OutputPath.FixExtension` | main.py:131-132 | the result always ends in `.mp4` (case-insensitive); a path that already does is unchanged; a path without a backslash gets `.mp4` appended |
| `OutputPath.DirectoryBranch` | main.py:132 | with a backslash and no `.mp4`, the result is the path minus its trailing backslashes, followed by `\output.mp4` |
| `OutputPath.Normalise` | main.py:129-132 | the normalised output path always ends in `.mp4`, checked case-insensitively |
| `OutputPath.NormaliseDefault` | main.py:129 | an answer that is blank after stripping becomes `demo.mp4` |
| `OutputPath.NormaliseKeepsMp4` | main.py:131 | a stripped answer already ending in `.mp4` or `.MP4` is kept as it is |
| `OutputPath.NormaliseIdempotent` | main.py:129-132 | normalising a normalised path changes nothing |
| `OutputPath.ExampleStripped` | main.py:129-132 | `'  clip '` becomes `clip.mp4` |
| `OutputPath.ExampleDirectory` | main.py:132 | `C:\videos\\` becomes `C:\videos\output.mp4` |
| `Video.VideoSink.constructor` | main.py:92 | creating the writer records path, codec, fps, size and the colour flag; it is open exactly when the backend opens; no frames are written and it has not been released |
| `Video.VideoSink.Write` | main.py:100 | a write appends the frame, unless it is the write the backend fails, which appends nothing; nothing else changes |
| `Video.VideoSink.Release` | main.py:102 | release closes the writer, keeps its frames and counts one more release |
| `Video.Survivors` | main.py:67-79 | the images the decode loop keeps, in file order: each readable file gives its canonicalised image and each unreadable one is skipped; `SurvivorsAreReadable`, `SurvivorsAppend`, `SurvivorsEmpty` and `SurvivorsUnconverted` state its properties, and `DecodeAll` proves that the loop computes it |
| `Video.ReadableCorrect` | main.py:67-73 | the readable positions are listed once each, in increasing order, and no readable file is missing |
| `Video.SurvivorsAreReadable` | main.py:67-79 | the kept images are, in order, the canonicalised images of the readable files: failures are skipped and the sorted order is kept |
| `Video.SurvivorsAppend` | main.py:67-79 | the images kept from two lists in sequence are those kept from the first, then those kept from the second |
| `Video.SurvivorsEmpty` | main.py:70-82 | no image is kept exactly when no file can be decoded |
| `Video.SurvivorsUnconverted` | main.py:74-79 | every kept image has a layout the colour conversion leaves unchanged: neither 2-D nor 4-channel |
| `Video.DecodeAll` | main.py:67-79 | the decode loop returns exactly the survivors of the sorted list |
| `Video.WriteAll` | main.py:97-102 | the frames are written in order until the first write that raises, and the writer is released exactly once either way |
| `Video.WriteStage` | main.py:97-102 | the `try`/`finally` on an opened writer: every frame, or the frames before the write that raises with `WriteFailed` at its index, and one release either way; `WriteAll` proves that the loop computes it |
| `Video.Pipeline` | main.py:43-102 | the run, step by step: `NoImageFiles`, `NoImagesRead`, `BadCodec`, `NotOpened`, then `WriteStage` on the normalised images at the largest size; `PipelineReleases`, `PipelineInputErrors`, `PipelineWritesPrefix` and `PipelineSuccess` state its properties, and `ImagesToVideo` proves that the method computes it |
| `Video.PipelineReleases` | main.py:94-102 | the writer is released at most once; it is released exactly when it was created and opened |
| `Video.PipelineInputErrors` | main.py:55-82 | the run fails with no files exactly when none were discovered, and with no images exactly when there were files but none decoded |
| `Video.PipelineWritesPrefix` | main.py:94-102 | the written frames are always a prefix of the normalised images, in sorted order; nothing is written unless the writer was released |
| `Video.PipelineSuccess` | main.py:84-102 | a successful run had a four-character codec and an open writer, released it once, and wrote every decoded image once, in order, at the common size, in a layout the colour conversion leaves unchanged, unchanged if it already had that size |
| `Video.ImagesToVideo` | main.py:43-102 | `images_to_video`: the exception it ends with, and the writer's path, codec, fps, size, frames and release count, are those `Pipeline` describes; the writer is created as a colour writer (`isColor`, the `True` at main.py:92); the writer exists exactly when the run got past the codec check |

## Left out

- Pixel arithmetic of OpenCV (`cv2.imread`, `cv2.cvtColor`, `cv2.resize` with linear interpolation) is floating-point image processing in a foreign library. It is passed in as the functions `decode`, `recolor` and `resample`, and only their effect on shape and layout is modelled.
- Encoding and muxing inside `cv2.VideoWriter` are foreign code. The writer is a class that records the frames it accepts, and a `Backend` value injects an open failure or a write failure. Exceptions from `imread`, `cvtColor` or `resize` themselves are not modelled.
- File discovery with `glob.glob` over `*.jpg`, `*.jpeg`, `*.png` and `*.bmp` (main.py:51-57, 115-122) depends on the file system, so the discovered list is an input. The discovery order only matters for names with equal keys, which the stable sort keeps in that order.
- The interactive loop of `main` (main.py:108-126), `int()` parsing of the frame rate (main.py:135), the `try`/`except` that prints the error (main.py:138-142), and every `print` (progress every ten files, warnings, sizes) are console I/O.
- Unicode behaviour of `str.isdigit`, `str.lower` and `str.strip` is not modelled. The model is exact on ASCII names and paths only.
- `img.copy()` in `resize` and the in-place list updates are modelled on values. Image aliasing is not representable, so "a copy with equal content" is stated as equality.
- `Frames.Resize`: requires a non-empty list. The source raises `IndexError` on an empty one, which its only caller never passes, because it checks for that before.
- `Video.VideoSink.Write`: requires an open writer, because the source writes only after `isOpened()` succeeded.
- The frame rate and the `isColor` flag are recorded on the writer, but their effect on the file is not modelled.
- `Video.ImagesToVideo`: the default arguments of `images_to_video` (`output_path='demo.mp4'`, `fps=25`, `codec='mp4v'`, main.py:43) are not modelled. Every argument is a parameter, because the only caller (main.py:139) passes all four.
