# Urban growth analysis — a Dafny model of its bookkeeping

`app.py` is a Streamlit application that estimates the expansion of a city
from a folder of yearly satellite images. For each `.png` file whose name
holds a year, it does the following:

- resizes the image to 30% of the size of the first image it could read;
- clusters the pixels into four colour classes;
- takes the class closest to a reference "urban" colour as the urban mask;
- records that mask's area and centroid.

With at least two such samples, it sorts them by year and fits a straight
line through the areas and another through the centroid coordinates. It
then reports the predicted growth for 2030 relative to the latest sample.

This project models the exact, non-numerical part of that pipeline, in six
modules that follow the program's structure, plus a small `Arith` module of
multiplication facts they share:

- `Wrappers` — `Option` and `Result`.
- `FileNames` — the file selection of app.py line 43:
  - lower-cased `.png` suffix, sorted in Python's string order.
  - the year of app.py lines 56-59: `os.path.splitext`, the digits of the
    stem kept in order, read as a decimal number, a stem without digits
    skipped.
- `Clusters` — `find_urban_cluster_index`: the first index of the minimum
  distance between a cluster centre and the reference colour, compared
  through squared distances.
- `Metrics` — the binary mask of app.py line 80, and `calculate_metrics`:
  - the raw image moments m00, m10 and m01 defined over the mask;
  - the area m00/255;
  - a centroid of floored means, present exactly when m00 is not 0.
- `Pipeline` — the loop of app.py lines 51-90 and what follows it:
  - the analysis size fixed by the first readable image;
  - a sample recorded only with a centroid and a positive area;
  - the stable sort by year;
  - at least two samples required;
  - the last sample as the base.

  Image decoding and clustering enter as a `World` value: the size of the
  image a file decodes to, and the centres and labels the clustering
  returns for a given analysis size.
- `Forecast` — the arithmetic around the regression:
  - the scale factor back to full resolution;
  - the growth area clamped at zero before its square root;
  - the percentage, which divides by the base sample's area.

  The three regression values at 2030 are an input (`Trend`).

The loop is also written as a method, `Pipeline.CollectSamples`. It keeps
the source's variables (`historical_data`, `original_w`, `original_h`,
`resized_w`, `resized_h`, bundled as `LoopState`) and the source's
`original_w == 0` test. It is proved to compute what the functional
description `Pipeline.Collect` states. Its loop invariant is
`Pipeline.Scanned`: the sizes are those of the first loaded image, and the
samples are those recorded so far, each with a positive area and a centroid
inside the analysis frame.

Two places where the model takes a position the source leaves implicit:

- **Years are not unique.** Each sample's year is easily taken to be
  unique, but the code does not enforce it: two files with the same digits
  both yield samples. The model follows the code. `Pipeline.SortByYearStable`
  and `Pipeline.BaseSampleIsLatest` say which of those samples ends up last:
  `list.sort` is stable, so it is the one whose file name sorts last.
- **`resized_w` is never 0 at app.py:118.** The source does not guard that
  division. But `cv2.resize` raises when given a zero target size, and
  `MiniBatchKMeans` raises when given fewer than four pixels. Both happen
  at the first readable image, long before line 118.

  The model therefore ends the analysis with `ImageTooSmall` when the first
  readable image resizes to fewer than four pixels or to a zero side
  (`Pipeline.CanCluster`, `Pipeline.EnoughPixels`). Every successful
  analysis then has a positive analysis width (`Pipeline.ValidAnalysis`),
  which is what `Forecast.ScaleFactor` requires.

## Model

| member | source | states |
|---|---|---|
| FileNames.LowerFolds | app.py:43 | lower-casing leaves no capital, turns each capital into the small letter at the same place in the alphabet, and keeps every other character |
| FileNames.LowerIdempotent | app.py:43 | lower-casing an already lower-cased name changes nothing |
| FileNames.IsPng | app.py:43 | a name is a `.png` name exactly when it has at least four characters, a dot fourth from the end, and `p`, `n`, `g` after it in either letter case |
| FileNames.SortNames | app.py:43 | the result is sorted in Python's string order and holds the same names, each as often as in the input |
| FileNames.LexLeTotal | app.py:43 | any two names are comparable in that order |
| FileNames.LexLeTrans | app.py:43 | the order is transitive |
| FileNames.PngFiles | app.py:43 | a name is selected exactly when it is in the listing and its lower-cased form ends with `.png`; every selected name keeps its multiplicity; the selection is sorted |
| FileNames.LastIndexOfIsLast | app.py:56 | the index found holds the dot and no dot follows it; -1 exactly when the name has no dot |
| FileNames.Stem | app.py:56 | the stem is never longer than the name; its exact extent is stated by `FileNames.StemIsSplitext` |
| FileNames.StemIsSplitext | app.py:56 | the stem is a prefix of the name; it is the whole name exactly when there is no dot or only dots precede the last one, and otherwise it stops at the last dot |
| FileNames.Digits | app.py:56 | the digit filter keeps at most the characters it is given; `FileNames.DigitsOfDigits` (a digit is kept as itself), `FileNames.DigitsOfNone` (a non-digit is dropped) and `FileNames.DigitsAppend` (the filter works character by character, in order) together fix its result on every string |
| FileNames.DigitsOfDigits | app.py:56 | a string made only of digits passes the filter unchanged: each digit is kept as itself, in its place |
| FileNames.DigitsOfNone | app.py:56 | a string with no digit leaves nothing after the filter |
| FileNames.DigitsFiltered | app.py:56-57 | the kept characters are all digits, and none are kept exactly when the stem has no digit |
| FileNames.DigitsAppend | app.py:56 | filtering digits distributes over concatenation |
| FileNames.DecimalRoundTrip | app.py:59 | reading back the decimal numeral of `n` gives `n` |
| FileNames.ParseYear | app.py:56-59 | the year a file name stands for, or none; what it is is stated by `FileNames.ParseYearSkips` and `FileNames.PngYearFromName` |
| FileNames.ParseYearSkips | app.py:56-59 | a file is skipped exactly when its stem has no digit; otherwise its year is the decimal value of the stem's digits in order |
| FileNames.PngYearFromName | app.py:56-59 | for a `.png` file the extension contributes no digit, so the year comes from the name minus its last four characters |
| FileNames.YearRoundTrip | app.py:43-59 | a digit-free prefix, the numeral of a year and a `.png` extension in any letter case make a name that is selected and parses back to that year |
| Clusters.NearestIndex | app.py:24-27 | the index is in range, its squared distance is at most every other, and strictly below every earlier one: the first minimum, as `np.argmin` returns |
| Clusters.SquareMonotone | app.py:26 | for non-negative reals, squaring preserves `<` and `<=` in both directions |
| Clusters.ArgminOfNormsAgrees | app.py:26-27 | for any non-negative norms whose squares are the squared distances, the first minimum of the norms is the index chosen on squared distances |
| Metrics.UrbanMask | app.py:80 | the mask has the label grid's shape and holds only 0 and 255, with 255 exactly where the label is the urban cluster |
| Metrics.M00 | app.py:31 | on a 0/255 mask, the raw moment m00 is 255 times the number of set pixels |
| Metrics.M10 | app.py:31 | on a 0/255 mask, the raw moment m10 is 255 times the sum of the set pixels' x coordinates |
| Metrics.M01 | app.py:31 | on a 0/255 mask, the raw moment m01 is 255 times the sum of the set pixels' y coordinates |
| Metrics.CalculateMetrics | app.py:29-37 | the area is the number of set pixels; the centroid is absent exactly when there is none, and otherwise is the floored mean x and mean y of the set pixels |
| Metrics.CentroidIffArea | app.py:33-36 | a centroid exists exactly when the area is positive |
| Metrics.AreaBound | app.py:30 | the area is at most width times height |
| Metrics.CentroidInFrame | app.py:33-36 | a present centroid lies in [0, width) x [0, height) |
| Pipeline.ResizeIsFloor | app.py:72-73 | each resized side is the floor of 30% of the original side |
| Pipeline.ResizeDims | app.py:72-73 | the resized sides never exceed the original ones |
| Pipeline.EnoughPixels | app.py:75-78 | the analysis size can be clustered exactly when both sides are positive and it has at least `N_CLUSTERS` pixels |
| Pipeline.UrbanMaskOf | app.py:75-80 | the mask is binary and has the analysis size, and a pixel is set exactly when its label is the cluster whose centre is nearest the urban reference colour |
| Pipeline.Measure | app.py:81-90 | a sample is recorded exactly when the mask has a set pixel; it carries the file's year and name, the pixel count, and the floored mean x and mean y of the set pixels, which lie inside the analysis frame |
| Pipeline.Observe | app.py:55-90 | a file yields a sample exactly when its stem has a digit, it decodes and its mask is not empty; the sample is valid and carries the year its name spells |
| Pipeline.Gather | app.py:55-90 | every gathered sample is valid; that each comes from one of the files read is stated by `Pipeline.GatherFromFiles`, and that each file adds exactly one sample or none by `Pipeline.GatherStep` |
| Pipeline.GatherStep | app.py:55-90 | a file adds exactly one sample to the gathered list when it yields one, and none when it is skipped |
| Pipeline.GatherFromFiles | app.py:55-90 | every gathered sample's file name is one of the files read so far |
| Pipeline.GatherPrefixKept | app.py:55-90 | reading more files never moves or drops a sample already gathered |
| Pipeline.GatherComplete | app.py:55-90 | every file that yields a sample contributes it, at the position after the samples of the files before it |
| Pipeline.GatherInFileOrder | app.py:55-90 | of two files that both yield a sample, the earlier file's sample comes first |
| Pipeline.GatherNamedByYear | app.py:56-90 | every gathered sample's year is the one its file name spells |
| Pipeline.FirstImage | app.py:70-73 | the size of the first file with a year and an image; which file that is is stated by `Pipeline.FirstImageNone` and `Pipeline.FirstImageAt` |
| Pipeline.FirstImageNone | app.py:70 | no analysis size is fixed exactly when no file so far has both a year and an image |
| Pipeline.FirstImageAt | app.py:70-73 | the analysis size comes from the earliest file with a year and an image, whatever follows |
| Pipeline.Collect | app.py:51-90 | the loop fails exactly when the first loaded image is too small to cluster; on success every sample is valid, and when an image loaded the recorded original size is that first image's and the analysis size is its resized form |
| Pipeline.CollectNamedByYear | app.py:56-90 | every collected sample's year is the one its file name spells |
| Pipeline.Visit | app.py:55-90 | one loop iteration keeps the loop invariant, or stops with `ImageTooSmall` exactly as `Collect` does |
| Pipeline.CollectSamples | app.py:51-90 | the loop as written computes `Collect`'s result, and every recorded sample has a positive area and a centroid inside the frame |
| Pipeline.InsertByYearSorted | app.py:99 | inserting into a year-sorted sequence keeps it sorted |
| Pipeline.InsertByYearStable | app.py:99 | among samples of each year the inserted one comes first and the others keep their order |
| Pipeline.SortByYear | app.py:99 | the sort keeps the number of samples; it is sorted, a permutation and stable by `Pipeline.SortByYearSorted`, `Pipeline.SortByYearPerm` and `Pipeline.SortByYearStable` |
| Pipeline.SortByYearSorted | app.py:99 | the sorted samples have non-decreasing years |
| Pipeline.SortByYearPerm | app.py:99 | the sort keeps every sample as often as it occurs |
| Pipeline.SortByYearStable | app.py:99 | the samples of each year keep their recorded order |
| Pipeline.Conclude | app.py:92-94 | fewer than two samples is the `InsufficientData` error and two or more succeed |
| Pipeline.ConcludeValid | app.py:92-113 | a concluded analysis has at least two valid, year-sorted samples, the last of them the base |
| Pipeline.ConcludeBaseIsLatest | app.py:99-113 | the base sample is a recorded one with the latest year, the last recorded of that year |
| Pipeline.Analyse | app.py:42-94 | a missing folder, an empty `.png` selection, an image too small to cluster and fewer than two samples are each their own error; success exactly when the collection succeeds with at least two samples |
| Pipeline.AnalyseValid | app.py:42-113 | a successful analysis holds at least two valid samples sorted by year, the last one its base |
| Pipeline.AnalysePermutes | app.py:99 | the analysis holds exactly the recorded samples |
| Pipeline.AnalyseNamedByYear | app.py:56-99 | every analysed sample's year is the one its file name spells |
| Pipeline.AnalyseKeepsYearOrder | app.py:99 | samples of one year stay in file-name order |
| Pipeline.BaseSampleIsLatest | app.py:99-113 | `last_data` is a recorded sample with the latest year, the one of that year read last |
| Forecast.ScaleFactor | app.py:118 | the factor is positive and maps the analysis width back onto the original width |
| Forecast.ScaleAtLeast | app.py:72-118 | because the analysis width is at most 30% of the original, the factor is at least 100/30 |
| Forecast.GrowthArea | app.py:114-124 | the value under the radius's square root is never negative, and is positive exactly when the trend's area exceeds the base sample's |
| Forecast.GrowthScalesQuadratically | app.py:114-123 | a non-negative increase rescales with the square of the ratio of the widths |
| Forecast.IncreasePercent | app.py:141 | the percentage times the base area is 100 times the predicted increase, so the division by the base area is defined |
| Forecast.PercentSign | app.py:141 | the percentage is positive, zero or negative as the predicted area is above, at or below the base area |
| Forecast.SortedLastIsLatest | app.py:99-113 | the last element of a year-sorted sequence carries its latest year |
| Forecast.Predict | app.py:113-142 | the report's year is the latest sample's, the target year is 2030, the percentage relates to the base area, and the growth area is non-negative and positive exactly when the trend grows |
| Forecast.Run | app.py:41-144 | the run succeeds exactly when the analysis does, with the analysis's error otherwise; a report carries the latest recorded year and 2030 |

## Left out

- Streamlit output, placeholders, `time.sleep` and the CSV/matplotlib
  chart (app.py lines 62-64 and 148 onward): presentation only. `app2.py`
  is a map page with no analysis logic.
- OpenCV I/O and drawing: `cv2.imread`, `cvtColor`, `resize`, the circles,
  the arrow and `addWeighted`. The size `imread` decodes a file to is a
  parameter (`World.read`). The drawing is not modelled.
- MiniBatchKMeans (app.py:78) is randomized floating-point code. Its
  result (centres and one label per pixel) is a parameter
  (`World.segment`), assumed to have four centres and a label for every
  pixel of the analysis size.
- LinearRegression (app.py:101-111): the three predictions at 2030 are a
  parameter (`Trend`).
- Floating point:
  - reals stand for floats;
  - `int()` truncation of the rescaled centroids (app.py:119-122),
    `math.sqrt` and `math.pi` (app.py:124) are not modelled;
  - the centroid rescaling uses the width ratio for the y coordinate too,
    and that is not modelled.
- Metrics.CalculateMetrics: the source divides the moments as floats
  before truncating. The model uses exact integer floor division and does
  not model float rounding of very large moment sums.
- FileNames.Lower, FileNames.IsDigit: ASCII only. Python's `str.lower` and
  `str.isdigit` also act on non-ASCII characters. For the `.png` suffix,
  ASCII folding gives the same selection. For digits it does not:
  - a superscript such as `²` counts as a digit there, and `int()` at
    app.py:59 then raises `ValueError`, so such a name ends the run in the
    source while the model ignores the character;
  - decimal digits of other scripts are read by `int()` as part of the
    year there, while the model ignores them.
- FileNames.ParseYear: Python's limit of 4300 digits for `int()` is not
  modelled.
- Clusters.SqDist, Clusters.Distances: state that a squared distance is
  non-negative and zero from a colour to itself, not that it is positive
  between different colours. The argmin argument needs only the first.
- The folder listing is an `Option<seq<string>>`. None stands for the
  `FileNotFoundError` of `os.listdir`. Other OS errors are not modelled.
