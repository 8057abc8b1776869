# Duplicate image deletion, modelled in Dafny

The script `new-solution.py` cleans a folder of camera snapshots. It does the following:

1. It collects the `.png` files of the folder.
2. It sorts them by a timestamp read out of each file name (`get_timestamp`).
3. It walks through the sorted images, comparing each one with the image
   before it, the *base*. Each image is converted to grayscale, blurred and
   given a black border mask (`draw_color_mask`).
4. It takes the absolute difference of the two frames and binarises it at 45.
5. It dilates the result and outlines its blobs.
6. The areas of the blobs of at least `min_contour_area` are summed into a
   score. If the score is below `threshold`, the base image is deleted as a
   near-duplicate. Either way, the current image becomes the new base.

This project models that core in Dafny 4.11. It has these modules:

- `Errors` (`errors.dfy`): the two Python exceptions the parser and the main
  program raise, and a `Result` type.
- `PyStr` (`pystr.dfy`): the `str` builtins the file-name parser relies on.
  These are `split`, `replace`, and `int()` in base 10, with sign, `_`
  digit separators and the surrounding whitespace `int()` skips (`Strip`
  stands for that trim only; the script never calls `strip()`). A reference decimal rendering
  (`ShowNat`, `ShowInt`), which the script itself does not use, states the
  round trip of `int()`.
- `Timestamp` (`timestamp.dfy`): `get_timestamp` as written, and the
  date-time key its comment describes (see Findings).
- `Ordering` (`ordering.dfy`): the `.png` filter loop, and
  `sorted(.., key=get_timestamp)` as a stable insertion sort. The sort raises
  the first key exception in list order.
- `Mask` (`mask.dfy`): `draw_color_mask` as four in-place rectangle fills on
  an `array2<int>`. It also models the copy-then-mask structure of
  `preprocess_image_change_detection`.
- `ChangeDetection` (`change.dfy`): the absolute difference and threshold,
  and the contour filter-and-sum loop of `compare_frames_change_detection`.
- `Decisions` (`decisions.dfy`): the base-advancing keep/delete loop.
- `Script` (`script.dfy`): the main program from the folder listing to the
  list of deleted files. The sort key is a parameter: `GetTimestamp` gives
  the program as written, `IntendedTimestamp` the corrected one.

Conventions:

- **Rectangle fill:** a filled `cv2.rectangle` between corner points
  `(x1, y1)` and `(x2, y2)` paints every pixel between them, both ends
  included, clipped to the frame. Consequences:
  - a left border of 0 still blackens column 0;
  - a bottom border of 0 puts `y_max` at `h`, so nothing is drawn at the
    bottom.
- **Integer truncation:** `int(b * w / 100)` truncates toward zero. It is
  written out as `TruncDiv100`.
- **Scoring:** reading, resizing, preprocessing and scoring a pair of files
  are the parameter `scoreOf(base, current)` of the decision loop.
- **Contours:** dilation and contour extraction are parameters of
  `CompareFrames`. Contour areas are given as non-negative reals.

## Model

| member | source | states |
|---|---|---|
| PyStr.Split | new-solution.py:65 | `str.split(c)`: at least one field, the first is the text before the first `c`, a text without `c` is one field, and a text with `c` gives at least two |
| PyStr.SplitJoin | new-solution.py:65 | joining the fields of `split(c)` with `c` gives back the text, and no field holds `c` |
| PyStr.SplitAfterFirst | new-solution.py:65 | the fields after the first separator are the split of the rest |
| PyStr.Replace | new-solution.py:67-70 | definition of `str.replace`: leftmost, non-overlapping occurrences of the pattern replaced, scanning left to right; its properties are in the rows `PyStr.ReplaceAbsent` to `PyStr.ReplaceRemovesChar` |
| PyStr.ReplaceAbsent | new-solution.py:67-70 | `replace` leaves text without the pattern's first character unchanged |
| PyStr.ReplaceSkipsPrefix | new-solution.py:67-70 | `replace` passes a prefix without the pattern's first character through and works on the rest |
| PyStr.ReplaceRemovesChar | new-solution.py:70 | `replace("_", "")` leaves no `_` |
| PyStr.ParseInt | new-solution.py:65-70 | definition of `int()` in base 10: surrounding space, tab and `\n`…`\r` trimmed, an optional sign, then digits with single `_` between them, anything else `ValueError`; its properties are in the rows `PyStr.ParseShowInt` to `PyStr.SeparatorIsNotSpace` |
| PyStr.ParseShowInt | new-solution.py:65 | the modelled `int()` inverts decimal rendering: it reads back every integer written in base 10 |
| PyStr.ParseDigits | new-solution.py:65 | `int()` of a non-empty run of digits is the number it denotes |
| PyStr.ParseIntAlphabet | new-solution.py:65 | `int()` succeeds only on text made of digits, `_`, signs and whitespace that holds at least one digit |
| PyStr.ParseIntRejects | new-solution.py:65 | `int()` of text holding any other character raises `ValueError` |
| PyStr.SeparatorIsNotSpace | new-solution.py:65 | the information separator 0x1c is not whitespace to `int()`: `int("\x1c5")` raises `ValueError` |
| PyStr.DecimalConcat | new-solution.py:70 | the value of two digit strings written one after the other is the first times a power of ten plus the second |
| Timestamp.At | new-solution.py:65-67 | definition of indexing a split result with `[1]`: the field when it exists, `IndexError` otherwise; its property is in the row `Timestamp.NoSeparatorIsIndexError` |
| Timestamp.GetTimestamp | new-solution.py:63-70 | definition of `get_timestamp` as written; its properties are in the rows `Timestamp.HyphenKey` to `Timestamp.CameraExampleAsWritten` and `Timestamp.OneFieldAsWritten`, `Timestamp.TwoFieldsAsWritten` |
| Timestamp.HyphenKey | new-solution.py:64-65 | a name with `-` is keyed by `int()` of the text between the first `-` and the next `-` or `.` |
| Timestamp.HyphenFieldNotNumeric | new-solution.py:64-65 | a field after `-` with no digit (empty, `png`) or with a character no integer literal holds (`12a`) raises `ValueError` |
| Timestamp.MotionExample | new-solution.py:65 | `motion-1672617845.png` is keyed 1672617845 |
| Timestamp.UnderscoreKey | new-solution.py:66-70 | a name without `-` is keyed by `int()` of its second `_` field alone; both replacements leave that field unchanged |
| Timestamp.NoSeparatorIsIndexError | new-solution.py:64-70 | a name with neither `-` nor `_` raises `IndexError` |
| Timestamp.CameraKeyIsYear | new-solution.py:66-70 | as written, a camera name `c<id>_yyyy_mm_dd__hh__mm__ss.<ext>` is keyed by its year alone |
| Timestamp.CameraExampleAsWritten | new-solution.py:66-70 | two camera names almost a year apart (2023-01-02 and 2023-12-31) both get the key 2023 |
| Timestamp.IntendedTimestamp | new-solution.py:67-70 | definition of the corrected key (the text after the first `_` up to the `.`, `__` collapsed, `_` dropped); its properties are in the rows `Timestamp.IntendedCameraKey`, `Timestamp.CameraNamesChronological`, `Timestamp.OneFieldIntended`, `Timestamp.TwoFieldsIntended` |
| Timestamp.IntendedCameraKey | new-solution.py:67-70 | the corrected key of a camera name is its whole date-time `yyyymmddhhmmss` |
| Timestamp.DateTimeKeyChronological | new-solution.py:69 | ordering by the date-time key is calendar order, and equal keys mean equal date-times |
| Timestamp.CameraExampleIntended | new-solution.py:69 | the corrected keys of the two camera names are 20230102030405 and 20231231235959 |
| Timestamp.CameraNamesChronological | new-solution.py:67-70 | with the corrected key, every camera name has a key, one key is below another exactly when its date-time comes first, and keys are equal exactly when the date-times are |
| Timestamp.OneFieldAsWritten | new-solution.py:66-70 | as written, a name `<id>_<digits>.<ext>` with a single `_` raises `ValueError`, because the field keeps its extension |
| Timestamp.OneFieldIntended | new-solution.py:69 | the corrected key of `<id>_<digits>.<ext>` is the number the digits denote |
| Timestamp.TwoFieldsAsWritten | new-solution.py:66-70 | as written, `<id>_<digits>_<tail>.<ext>` is keyed by the digits of its second field |
| Timestamp.TwoFieldsIntended | new-solution.py:69 | the corrected key of `<id>_<digits>_<tail>.<ext>` raises `ValueError` when `tail` holds a character no integer literal has |
| Ordering.IsPng | new-solution.py:101 | definition of `filename.endswith(".png")`: the name is at least four characters long and its last four are `.png`; its properties are in the rows `Ordering.PngNamesMembers`, `Script.OutcomeSpec` and `Script.OneImageListing` |
| Ordering.PngNames | new-solution.py:97-102 | definition of the list the loop builds: the `.png` names of the listing, in listing order; its properties are in the rows `Ordering.CollectPngNames` to `Ordering.PngNamesConcat` |
| Ordering.CollectPngNames | new-solution.py:97-102 | the loop keeps exactly the names ending in `.png`, in listing order |
| Ordering.PngNamesMembers | new-solution.py:100-102 | a name is collected exactly when it is in the listing and ends in `.png` |
| Ordering.PngNamesConcat | new-solution.py:100-102 | collecting from two listings one after the other collects from each, in order |
| Ordering.InsertSorted | new-solution.py:105 | inserting into a sorted sequence keeps it sorted and adds exactly the new entry |
| Ordering.StableSortSorted | new-solution.py:105 | the sort returns its input rearranged into non-decreasing key order |
| Ordering.StableSortKeepsTies | new-solution.py:105 | the sort is stable: entries with the same key keep their input order |
| Ordering.TiesDetermineOrder | new-solution.py:105 | two sorted sequences that agree on the order within every key are equal |
| Ordering.StableSortUnique | new-solution.py:105 | any sorted arrangement that keeps each key's input order is the sort's result |
| Ordering.KeyAll | new-solution.py:105 | the keys are computed for every name, left to right; the result fails exactly when some key fails, and then with the first failure |
| Ordering.SortImageNames | new-solution.py:105 | definition of `sorted(image_names, key=...)`: keys computed first, then a stable insertion sort; its properties are in the rows `Ordering.InsertSorted` to `Ordering.SortImageNamesSpec` |
| Ordering.SortImageNamesSpec | new-solution.py:100-105 | sorting fails exactly when some key fails; otherwise it returns a permutation of the names whose keys do not decrease, and names with equal keys keep their listing order |
| Mask.TruncDiv100 | new-solution.py:13-16 | `int(a / 100)` truncates toward zero, for both signs |
| Mask.MaskGrid | new-solution.py:9-23 | definition of the masked frame: strip pixels take the colour, others keep their value; its properties are in the rows `Mask.StripsCharacterized`, `Mask.MaskEffect`, `Mask.MaskIdempotent` |
| Mask.DrawColorMask | new-solution.py:9-23 | the four fills leave the frame equal to `MaskGrid` of the old frame |
| Mask.FillRect | new-solution.py:18-21 | one filled rectangle paints the covered pixels and leaves every other pixel unchanged |
| Mask.XMin | new-solution.py:13 | definition of the edge `x_min`, `int(left*w/100)`, with truncation toward zero; its properties are in the rows `Mask.MaskBounds` to `Mask.DefaultMaskBounds` |
| Mask.XMax | new-solution.py:14 | definition of the edge `x_max`, `w - int(right*w/100)`, with truncation toward zero; its properties are in the rows `Mask.MaskBounds` to `Mask.DefaultMaskBounds` |
| Mask.YMin | new-solution.py:15 | definition of the edge `y_min`, `int(top*h/100)`, with truncation toward zero; its properties are in the rows `Mask.MaskBounds` to `Mask.DefaultMaskBounds` |
| Mask.YMax | new-solution.py:16 | definition of the edge `y_max`, `h - int(bottom*h/100)`, with truncation toward zero; its properties are in the rows `Mask.MaskBounds` to `Mask.DefaultMaskBounds` |
| Mask.MaskBounds | new-solution.py:13-16 | for valid percentages `0 <= x_min <= x_max <= w` and `0 <= y_min <= y_max <= h` |
| Mask.BoundsAreDivisions | new-solution.py:13-16 | for valid percentages the edges are `b*w div 100` and `w - b*w div 100` |
| Mask.DefaultMaskBounds | new-solution.py:13-16 | the default mask `(5, 10, 5, 0)` on 640 by 480 gives edges 32, 608, 48 and 480 |
| Mask.StripsCharacterized | new-solution.py:13-21 | a pixel is painted exactly when it lies on or outside an edge of the central rectangle |
| Mask.MaskEffect | new-solution.py:9-23 | the mask keeps the dimensions, paints every strip pixel and keeps every pixel strictly inside |
| Mask.MaskIdempotent | new-solution.py:9-23 | masking twice is masking once |
| Mask.Preprocess | new-solution.py:27-38 | the result is a fresh copy of the frame with the default mask applied, and the frame is untouched |
| ChangeDetection.ChangePixel | new-solution.py:43-44 | definition of one pixel of `absdiff` followed by `threshold(45, 255, THRESH_BINARY)`: 255 when the difference exceeds 45, else 0; its property is in the row `ChangeDetection.ChangeGridPixels` |
| ChangeDetection.ChangeGrid | new-solution.py:43-44 | definition of the thresholded absolute difference; its properties are in the rows `ChangeDetection.ChangeGridPixels` to `ChangeDetection.IdenticalFramesNoChange` |
| ChangeDetection.ChangeGridPixels | new-solution.py:43-44 | a mask pixel is 255 exactly when the frames differ there by more than 45, and 0 otherwise |
| ChangeDetection.ChangeGridSymmetric | new-solution.py:43-44 | the mask does not depend on which frame comes first |
| ChangeDetection.IdenticalFramesNoChange | new-solution.py:43-44 | identical frames give an all-zero mask |
| ChangeDetection.BinaryChangeMask | new-solution.py:43-44 | the binarised difference is a new array equal to `ChangeGrid` of the two frames |
| ChangeDetection.Retained | new-solution.py:50-56 | definition of the contours the loop keeps; its properties are in the rows `ChangeDetection.RetainedMembers`, `ChangeDetection.RetainedConcat` |
| ChangeDetection.TotalArea | new-solution.py:50-57 | definition of the summed area; its properties are in the rows `ChangeDetection.TotalAreaNonNegative` to `ChangeDetection.ScoreAtMostTotal` |
| ChangeDetection.FilterContours | new-solution.py:50-57 | the loop returns the contours of area at least `min_contour_area` and the sum of their areas |
| ChangeDetection.CompareFrames | new-solution.py:42-59 | the score is the total area of the large-enough contours of the dilated change mask |
| ChangeDetection.RetainedMembers | new-solution.py:52-56 | a contour is kept exactly when its area is at least `min_contour_area` |
| ChangeDetection.RetainedConcat | new-solution.py:52-56 | filtering keeps the original order |
| ChangeDetection.TotalAreaNonNegative | new-solution.py:50-57 | the score is never negative |
| ChangeDetection.NoContoursNoScore | new-solution.py:50-51 | without contours the score is 0 |
| ChangeDetection.ScoreMonotone | new-solution.py:53-57 | raising `min_contour_area` never raises the score |
| ChangeDetection.ScoreAtMostTotal | new-solution.py:53-57 | the score is at most the total area of all contours |
| Decisions.Deletions | new-solution.py:111-140 | definition of the deleted indices; its properties are in the rows `Decisions.DeletedAt` to `Decisions.ThreeFrames` |
| Decisions.DecisionLoop | new-solution.py:107-140 | the loop deletes exactly the images `Deletions` lists, and ends with the last image as base |
| Decisions.DeletedAt | new-solution.py:128-136 | image `j` is deleted exactly when the score of `j` against `j+1` is below the threshold |
| Decisions.DeletionsIff | new-solution.py:128-136 | for every `j`: deleted exactly when it has a successor and their score is strictly below the threshold |
| Decisions.DeletionsIncreasing | new-solution.py:111-140 | deletions come in strictly increasing index order and never reach the last image |
| Decisions.LastNeverDeleted | new-solution.py:111-140 | the last image survives, and at most all but one image are deleted |
| Decisions.FirstCanBeDeleted | new-solution.py:107-136 | the first image is deleted when the second is close to it |
| Decisions.ThresholdKeeps | new-solution.py:134 | a score equal to the threshold keeps the image |
| Decisions.RunOfDuplicates | new-solution.py:111-140 | a run of `k` consecutive near-duplicates loses exactly its first `k - 1` images |
| Decisions.AllDuplicates | new-solution.py:111-140 | when every image is close to the one before, all but the last are deleted, first to last |
| Decisions.NoDuplicates | new-solution.py:111-140 | when every image differs enough from the one before, nothing is deleted |
| Decisions.ThreeFrames | new-solution.py:111-140 | three images where only the second repeats the first: only the first is deleted |
| Script.Outcome | new-solution.py:97-140 | definition of what the main program returns for a listing and a key; its properties are in the rows `Script.OutcomeSpec` to `Script.OneImageListing` |
| Script.Run | new-solution.py:97-140 | the main program, for the sort key it is given (`GetTimestamp` as written, `IntendedTimestamp` corrected), returns what `Outcome` describes |
| Script.OutcomeSpec | new-solution.py:97-140 | for either key, the script fails exactly when no `.png` exists or the key of one cannot be read; otherwise it deletes only `.png` files of the folder and keeps at least one |
| Script.SortOne | new-solution.py:105 | sorting a single name fails with its key's exception or returns that name |
| Script.OutcomeOne | new-solution.py:97-140 | a folder with one image stops with that image's key exception, or deletes nothing |
| Script.OneImageListing | new-solution.py:64-70 | on a folder holding only `<id>_<digits>.png` the program as written raises `ValueError`, while the corrected one runs and deletes nothing |

## Left out

- `cv2.cvtColor`, `cv2.GaussianBlur` and `cv2.resize` are library numerics. `Preprocess` takes the already gray, blurred, resized frame.
- `cv2.dilate`, `cv2.findContours` and `imutils.grab_contours` are OpenCV's own algorithms. They are the function parameters `dilate` and `findContours` of `CompareFrames`.
- `cv2.contourArea` is a floating-point polygon area. Areas are supplied with each contour as non-negative reals, and the score is summed without rounding.
- The coverage of a filled `cv2.rectangle` belongs to OpenCV. The model fixes the inclusive, clipped convention described above.
- Mask.Preprocess: fixes the `black_mask` argument of `preprocess_image_change_detection` to its default `(5, 10, 5, 0)`. The script never passes another.
- The `color` argument of `draw_color_mask` is a single gray level in `DrawColorMask`. The script only uses black on a grayscale frame.
- Mask.TruncDiv100: computes the exact truncated quotient. The script's float division matches it only while `b * w` stays below 2^53.
- Pixels are unbounded integers. `cv2.absdiff` of 8-bit pixels equals the plain absolute difference in that range.
- `int()` accepts only ASCII digits here, and trims only the ASCII whitespace space, tab and `\n` to `\r`. Python also accepts other Unicode digits and spaces.
- `str.replace` with an empty pattern is not modelled. The script never uses one.
- Argument parsing, `os.listdir`, `cv2.imread`, `os.path.join` and `os.remove` are I/O:
  - the folder listing is an input sequence of names;
  - the files are compared through `scoreOf`;
  - the deleted files are returned as names.
- The defaults `min_contour_area = 3000` and `threshold = 4025` come from argument parsing, so they are parameters.
- An image that fails to decode (`None`) reuses a stale preprocessed frame, or raises `NameError` on the first pair. The model assumes every image decodes.
- `compare_frames_change_detection` returns the dilated mask as a grid value rather than an OpenCV array.

## Findings

| source | as written | input that shows it | evidently intended | confidence | as-written member | corrected member |
|---|---|---|---|---|---|---|
| new-solution.py:67-70 | `filename.split("_")[1]` takes only the year field of `c<id>_yyyy_mm_dd__hh__mm__ss.png`, so the `__` replacement does nothing and the key is the year | `cam1_2023_01_02__03__04__05.png` and `cam1_2023_12_31__23__59__59.png` both get the key 2023; their relative order is left to the listing order | key `yyyymmddhhmmss`, as the comment on line 69 says, so camera frames sort chronologically | not executed | Timestamp.CameraKeyIsYear, Timestamp.CameraExampleAsWritten | Timestamp.IntendedCameraKey, Timestamp.CameraNamesChronological |

`Timestamp.IntendedTimestamp` is the corrected key. `Timestamp.CameraNamesChronological` proves that it orders camera names by date and time. `Script.Run` takes the key as a parameter and is proved for both keys. The sorting lemmas of `Ordering` also hold for any key function.

The two keys agree on every hyphenated name, on names without `_` (both raise `IndexError`) and on names such as `a_12` (both give 12). They can differ elsewhere:

- On `<id>_<digits>.<ext>`, such as `img_001.png`, the key as written raises `ValueError` and the corrected key reads the number (`Timestamp.OneFieldAsWritten`, `Timestamp.OneFieldIntended`). A folder holding only such a file stops the program as written, and the corrected program runs (`Script.OneImageListing`).
- On `<id>_<digits>_<tail>.<ext>`, such as `a_12_b.png`, the key as written is the number, and the corrected key raises `ValueError` (`Timestamp.TwoFieldsAsWritten`, `Timestamp.TwoFieldsIntended`).
