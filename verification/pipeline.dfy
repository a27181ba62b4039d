/** The bookkeeping of `run_analysis_and_prediction` (app.py lines 41-113):
    which files are analysed, the analysis size fixed by the first loaded
    image, which images yield a sample, and how the samples are ordered
    before the trend is fitted. Image decoding and clustering are inputs. */
module Pipeline {
  import opened Wrappers
  import FileNames
  import Clusters
  import Metrics

  /** Width and height of an image, in pixels. */
  datatype Dims = Dims(w: nat, h: nat)

  /** What MiniBatchKMeans returns for one resized image: its cluster centres
      and one cluster label per pixel, row by row. */
  datatype Segmentation = Segmentation(centres: seq<Clusters.Rgb>, labels: seq<seq<nat>>)

  /** Everything the analysis learns from outside: the size of the image
      `cv2.imread` decodes from a file (None when it cannot), and the
      clustering of that image resized to given dimensions. */
  datatype World = World(read: string -> Option<Dims>, segment: (string, Dims) -> Segmentation)

  /** One entry of `historical_data` (app.py:84-90). */
  datatype Sample = Sample(year: nat, area: nat, cx: int, cy: int, filename: string)

  /** The ways the analysis ends without a result. `FolderNotFound`,
      `NoPngFiles` and `InsufficientData` are the user-facing errors after
      which the source returns `(None, None)`; `ImageTooSmall` is the
      exception OpenCV or scikit-learn raises when the analysis size leaves
      nothing to cluster. */
  datatype Error = FolderNotFound | NoPngFiles | ImageTooSmall | InsufficientData

  /** app.py:72-73: each side scaled by `RESIZE_PERCENT_FOR_ANALYSIS`, 30,
      and truncated by `int` (a floor, the value being non-negative). */
  function ResizeDims(d: Dims): (r: Dims)
    ensures r.w <= d.w && r.h <= d.h
  {
    Dims(d.w * 30 / 100, d.h * 30 / 100)
  }

  /** Each resized side is the largest whole number of pixels not above 30%
      of the original side. */
  lemma ResizeIsFloor(d: Dims)
    ensures ResizeDims(d).w * 100 <= d.w * 30 < (ResizeDims(d).w + 1) * 100
    ensures ResizeDims(d).h * 100 <= d.h * 30 < (ResizeDims(d).h + 1) * 100
  {
  }

  /** `cv2.resize` refuses an empty target size and MiniBatchKMeans refuses
      fewer pixels than its four clusters; an analysis size passing both can
      be clustered. Stated without a product, which `EnoughPixels` relates
      to the pixel count. */
  predicate CanCluster(d: Dims) {
    d.w > 0 && d.h > 0 && (d.w >= 4 || d.h >= 4 || (d.w >= 2 && d.h >= 2))
  }

  /** `CanCluster` holds exactly when the resized image is non-empty and has
      at least `N_CLUSTERS` pixels. */
  lemma EnoughPixels(d: Dims)
    ensures CanCluster(d) <==> d.w > 0 && d.h > 0 && d.w * d.h >= Clusters.N_CLUSTERS
  {
  }

  /** The clustering library's promise: `N_CLUSTERS` centres and a label for
      every pixel of the resized image. */
  predicate SegmentFits(s: Segmentation, d: Dims) {
    |s.centres| == Clusters.N_CLUSTERS && Metrics.IsRect(s.labels, d.w, d.h)
  }

  ghost predicate WellFormed(world: World) {
    forall f, d :: CanCluster(d) ==> SegmentFits(world.segment(f, d), d)
  }

  /** A file the loop gets past `cv2.imread` for: its stem has a digit and
      the image decodes. */
  predicate Loaded(world: World, f: string) {
    FileNames.ParseYear(f).Some? && world.read(f).Some?
  }

  /** What the analysis records of a sample: a positive area and a centroid
      inside the analysis frame. */
  predicate ValidSample(s: Sample, rd: Dims) {
    && 0 < s.area
    && 0 <= s.cx < rd.w
    && 0 <= s.cy < rd.h
  }

  /** A sample's year is the one its file name spells. */
  predicate NamedByYear(s: Sample) {
    FileNames.ParseYear(s.filename) == Some(s.year)
  }

  /** app.py:76-80: the mask of the cluster nearest `URBAN_REFERENCE_COLOR`. */
  function UrbanMaskOf(world: World, f: string, rd: Dims): (m: Metrics.Mask)
    requires WellFormed(world) && CanCluster(rd)
    ensures Metrics.IsBinary(m) && Metrics.IsRect(m, rd.w, rd.h)
    ensures forall y, x :: 0 <= y < rd.h && 0 <= x < rd.w ==>
              (m[y][x] == Metrics.SET <==>
               world.segment(f, rd).labels[y][x] == Clusters.NearestIndex(world.segment(f, rd).centres, Clusters.URBAN_REFERENCE))
  {
    var seg := world.segment(f, rd);
    var k := Clusters.NearestIndex(seg.centres, Clusters.URBAN_REFERENCE);
    Metrics.UrbanMask(seg.labels, k)
  }

  /** app.py:75-90 for a file with year `year` that decoded: the sample it
      yields at analysis size `rd`. One is recorded when the centroid exists
      and the area is positive; a tuple centroid is truthy even at (0, 0). */
  function Measure(world: World, f: string, year: nat, rd: Dims): (r: Option<Sample>)
    requires WellFormed(world) && CanCluster(rd)
    ensures r.Some? <==> Metrics.Count(UrbanMaskOf(world, f, rd)) > 0
    ensures r.Some? ==> && r.value.year == year && r.value.filename == f
                        && r.value.area == Metrics.Count(UrbanMaskOf(world, f, rd))
                        && 0 <= r.value.cx < rd.w && 0 <= r.value.cy < rd.h
    ensures r.Some? ==> var m := UrbanMaskOf(world, f, rd);
                        && r.value.cx == Metrics.SumX(m) / Metrics.Count(m)
                        && r.value.cy == Metrics.SumY(m) / Metrics.Count(m)
  {
    var mask := UrbanMaskOf(world, f, rd);
    var met := Metrics.CalculateMetrics(mask);
    Metrics.CentroidInFrame(mask, rd.w, rd.h);
    if met.centroid.Some? && met.area > 0 then
      Some(Sample(year, met.area, met.centroid.value.x, met.centroid.value.y, f))
    else
      None
  }

  /** One pass of the loop body (app.py:55-90) once the analysis size `rd`
      is fixed: the sample the file contributes, if any. */
  function Observe(world: World, f: string, rd: Dims): (r: Option<Sample>)
    requires WellFormed(world) && CanCluster(rd)
    ensures r.Some? <==> Loaded(world, f) && Metrics.Count(UrbanMaskOf(world, f, rd)) > 0
    ensures r.Some? ==> r.value.filename == f && ValidSample(r.value, rd) && NamedByYear(r.value)
  {
    match FileNames.ParseYear(f)
    case None => None
    case Some(year) =>
      if world.read(f).None? then None else Measure(world, f, year, rd)
  }

  /** The samples the first `n` files contribute, in file order, with the
      analysis size fixed at `rd`. */
  function Gather(world: World, files: seq<string>, n: nat, rd: Dims): (r: seq<Sample>)
    requires WellFormed(world) && CanCluster(rd) && n <= |files|
    ensures forall i :: 0 <= i < |r| ==> ValidSample(r[i], rd)
  {
    if n == 0 then []
    else
      var obs := Observe(world, files[n - 1], rd);
      Gather(world, files, n - 1, rd) + (if obs.Some? then [obs.value] else [])
  }

  /** Every gathered sample comes from one of the files read. */
  lemma {:induction false} GatherFromFiles(world: World, files: seq<string>, n: nat, rd: Dims)
    requires WellFormed(world) && CanCluster(rd) && n <= |files|
    ensures forall i :: 0 <= i < |Gather(world, files, n, rd)| ==> Gather(world, files, n, rd)[i].filename in files[..n]
  {
    if n > 0 {
      GatherFromFiles(world, files, n - 1, rd);
      assert files[..n] == files[..n - 1] + [files[n - 1]];
    }
  }

  /** Every gathered sample carries the year of its file name. */
  lemma {:induction false} GatherNamedByYear(world: World, files: seq<string>, n: nat, rd: Dims)
    requires WellFormed(world) && CanCluster(rd) && n <= |files|
    ensures forall i :: 0 <= i < |Gather(world, files, n, rd)| ==> NamedByYear(Gather(world, files, n, rd)[i])
  {
    if n > 0 {
      GatherNamedByYear(world, files, n - 1, rd);
    }
  }

  lemma AppendKeepsIndex<T>(a: seq<T>, t: seq<T>, k: nat)
    requires k < |a|
    ensures k < |a + t| && (a + t)[k] == a[k]
  {
  }

  lemma AppendLast<T>(a: seq<T>, x: T)
    ensures |a| < |a + [x]| && (a + [x])[|a|] == x
  {
  }

  /** A file that yields a sample puts it right after the samples gathered
      before it. */
  lemma GatherLands(world: World, files: seq<string>, i: nat, rd: Dims)
    requires WellFormed(world) && CanCluster(rd) && i < |files|
    ensures Observe(world, files[i], rd).Some? ==>
              && |Gather(world, files, i, rd)| < |Gather(world, files, i + 1, rd)|
              && Gather(world, files, i + 1, rd)[|Gather(world, files, i, rd)|] == Observe(world, files[i], rd).value
  {
    GatherNext(world, files, i, rd);
    if Observe(world, files[i], rd).Some? {
      AppendLast(Gather(world, files, i, rd), Observe(world, files[i], rd).value);
    }
  }

  /** One more file leaves every gathered sample where it is, and never
      shortens the gathered samples. */
  lemma GatherKeepsIndex(world: World, files: seq<string>, n: nat, rd: Dims, k: nat)
    requires WellFormed(world) && CanCluster(rd) && 0 < n <= |files|
    ensures |Gather(world, files, n - 1, rd)| <= |Gather(world, files, n, rd)|
    ensures k < |Gather(world, files, n - 1, rd)| ==> Gather(world, files, n, rd)[k] == Gather(world, files, n - 1, rd)[k]
  {
    var o := Observe(world, files[n - 1], rd);
    var tail := if o.Some? then [o.value] else [];
    assert Gather(world, files, n, rd) == Gather(world, files, n - 1, rd) + tail;
    if k < |Gather(world, files, n - 1, rd)| {
      AppendKeepsIndex(Gather(world, files, n - 1, rd), tail, k);
    }
  }

  /** Gathering over more files leaves every sample already gathered where
      it is. */
  lemma {:induction false} GatherPrefixKept(world: World, files: seq<string>, m: nat, n: nat, rd: Dims, k: nat)
    requires WellFormed(world) && CanCluster(rd) && m <= n <= |files|
    requires k < |Gather(world, files, m, rd)|
    ensures k < |Gather(world, files, n, rd)| && Gather(world, files, n, rd)[k] == Gather(world, files, m, rd)[k]
    decreases n
  {
    if m < n {
      GatherPrefixKept(world, files, m, n - 1, rd, k);
      GatherKeepsIndex(world, files, n, rd, k);
      assert k < |Gather(world, files, n - 1, rd)|;
    } else {
      assert Gather(world, files, m, rd) == Gather(world, files, n, rd);
    }
  }

  /** Every file that yields a sample contributes it, right after the
      samples of the files before it, and later files leave it in place. */
  lemma GatherComplete(world: World, files: seq<string>, n: nat, rd: Dims, i: nat)
    requires WellFormed(world) && CanCluster(rd) && i < n <= |files|
    ensures Observe(world, files[i], rd).Some? ==>
              && |Gather(world, files, i, rd)| < |Gather(world, files, n, rd)|
              && Gather(world, files, n, rd)[|Gather(world, files, i, rd)|] == Observe(world, files[i], rd).value
  {
    GatherLands(world, files, i, rd);
    if Observe(world, files[i], rd).Some? {
      GatherPrefixKept(world, files, i + 1, n, rd, |Gather(world, files, i, rd)|);
    }
  }

  /** Samples appear in file order: of two files that both yield a sample,
      the earlier file's sample comes first. */
  lemma GatherInFileOrder(world: World, files: seq<string>, n: nat, rd: Dims, i: nat, j: nat)
    requires WellFormed(world) && CanCluster(rd) && i < j < n <= |files|
    ensures Observe(world, files[i], rd).Some? && Observe(world, files[j], rd).Some? ==>
              var g := Gather(world, files, n, rd);
              var a, b := |Gather(world, files, i, rd)|, |Gather(world, files, j, rd)|;
              a < b < |g| && g[a] == Observe(world, files[i], rd).value && g[b] == Observe(world, files[j], rd).value
  {
    GatherComplete(world, files, n, rd, i);
    GatherComplete(world, files, n, rd, j);
    GatherComplete(world, files, j, rd, i);
  }


  /** The size of the first loaded image among the first `n` files: the one
      app.py:70-73 fixes the analysis size from. */
  function FirstImage(world: World, files: seq<string>, n: nat): Option<Dims>
    requires n <= |files|
  {
    if n == 0 then None
    else
      var first := FirstImage(world, files, n - 1);
      if first.Some? then first
      else if Loaded(world, files[n - 1]) then world.read(files[n - 1])
      else None
  }

  /** No image has loaded among the first `n` files exactly when none of
      them loads. */
  lemma {:induction false} FirstImageNone(world: World, files: seq<string>, n: nat)
    requires n <= |files|
    ensures FirstImage(world, files, n).None? <==> forall i :: 0 <= i < n ==> !Loaded(world, files[i])
  {
    if n > 0 {
      FirstImageNone(world, files, n - 1);
    }
  }

  /** When file `i` is the earliest that loads, the analysis size comes from
      it, however many files follow. */
  lemma FirstImageAt(world: World, files: seq<string>, n: nat, i: nat)
    requires i < n <= |files|
    requires Loaded(world, files[i]) && forall j :: 0 <= j < i ==> !Loaded(world, files[j])
    ensures FirstImage(world, files, n) == world.read(files[i])
  {
    FirstImageNone(world, files, i);
    assert FirstImage(world, files, i + 1) == world.read(files[i]);
    FirstImageOfExtension(world, files, i + 1, n);
  }

  lemma {:induction false} FirstImageOfExtension(world: World, files: seq<string>, n: nat, m: nat)
    requires n <= m <= |files| && FirstImage(world, files, n).Some?
    ensures FirstImage(world, files, m) == FirstImage(world, files, n)
    decreases m - n
  {
    if n < m {
      FirstImageOfExtension(world, files, n, m - 1);
    }
  }

  lemma {:induction false} GatherBeforeFirstImage(world: World, files: seq<string>, n: nat, rd: Dims)
    requires WellFormed(world) && CanCluster(rd) && n <= |files|
    requires FirstImage(world, files, n).None?
    ensures Gather(world, files, n, rd) == []
  {
    if n > 0 {
      GatherBeforeFirstImage(world, files, n - 1, rd);
    }
  }

  /** What the loop over the image files (app.py:51-90) produces. */
  datatype Collection = Collection(samples: seq<Sample>, original: Dims, resized: Dims)

  /** What the loop guarantees of its result: every sample is valid at the
      analysis size, and once a sample exists that size is the resized
      first image and can be clustered. */
  predicate WellRecorded(c: Collection) {
    && (forall i :: 0 <= i < |c.samples| ==> ValidSample(c.samples[i], c.resized))
    && (|c.samples| > 0 ==> CanCluster(c.resized) && c.resized == ResizeDims(c.original))
  }

  /** The loop of app.py:55-90 stated without its state: the analysis size is
      fixed by the first loaded image, and every file is observed at that
      size. */
  function Collect(world: World, files: seq<string>): (r: Result<Collection, Error>)
    requires WellFormed(world)
    ensures r.Err? <==> var first := FirstImage(world, files, |files|);
                        first.Some? && !CanCluster(ResizeDims(first.value))
    ensures r.Err? ==> r.error == ImageTooSmall
    ensures r.Ok? ==> WellRecorded(r.value)
    ensures r.Ok? && FirstImage(world, files, |files|).Some? ==>
              && r.value.original == FirstImage(world, files, |files|).value
              && r.value.resized == ResizeDims(r.value.original)
              && CanCluster(r.value.resized)
  {
    match FirstImage(world, files, |files|)
    case None => Ok(Collection([], Dims(0, 0), Dims(0, 0)))
    case Some(d) =>
      var rd := ResizeDims(d);
      if !CanCluster(rd) then Err(ImageTooSmall)
      else Ok(Collection(Gather(world, files, |files|, rd), d, rd))
  }

  /** Every collected sample carries the year of its file name. */
  lemma CollectNamedByYear(world: World, files: seq<string>)
    requires WellFormed(world) && Collect(world, files).Ok?
    ensures forall i :: 0 <= i < |Collect(world, files).value.samples| ==> NamedByYear(Collect(world, files).value.samples[i])
  {
    var first := FirstImage(world, files, |files|);
    if first.Some? {
      GatherNamedByYear(world, files, |files|, ResizeDims(first.value));
    }
  }

  /** The variables the loop of app.py:51-90 updates: `historical_data`,
      `original_w`, `original_h`, `resized_w` and `resized_h`. */
  datatype LoopState = LoopState(samples: seq<Sample>, originalW: nat, originalH: nat, resizedW: nat, resizedH: nat)

  /** The loop invariant after the first `i` files: until an image has
      loaded nothing is set; afterwards the sizes are those of the first
      loaded image and the samples are those `Gather` collects. */
  predicate Scanned(world: World, files: seq<string>, i: nat, st: LoopState)
    requires WellFormed(world) && i <= |files|
  {
    match FirstImage(world, files, i)
    case None => st == LoopState([], 0, 0, 0, 0)
    case Some(d) =>
      && d == Dims(st.originalW, st.originalH)
      && Dims(st.resizedW, st.resizedH) == ResizeDims(d)
      && CanCluster(ResizeDims(d))
      && st.samples == Gather(world, files, i, ResizeDims(d))
  }

  lemma GatherNext(world: World, files: seq<string>, n: nat, rd: Dims)
    requires WellFormed(world) && CanCluster(rd) && n < |files|
    ensures Gather(world, files, n + 1, rd) ==
            Gather(world, files, n, rd) + (var o := Observe(world, files[n], rd); if o.Some? then [o.value] else [])
  {
  }

  /** Each file adds exactly one sample when it yields one and none when it
      does not; with `GatherComplete` and `GatherPrefixKept` this fixes the
      gathered sequence. */
  lemma GatherStep(world: World, files: seq<string>, i: nat, rd: Dims)
    requires WellFormed(world) && CanCluster(rd) && i < |files|
    ensures |Gather(world, files, i + 1, rd)| ==
            |Gather(world, files, i, rd)| + (if Observe(world, files[i], rd).Some? then 1 else 0)
  {
    GatherNext(world, files, i, rd);
  }

  /** A file that does not load changes neither the analysis size nor the
      samples. */
  lemma NotLoadedNext(world: World, files: seq<string>, n: nat)
    requires n < |files| && !Loaded(world, files[n])
    ensures FirstImage(world, files, n + 1) == FirstImage(world, files, n)
    ensures forall rd :: WellFormed(world) && CanCluster(rd) ==> Gather(world, files, n + 1, rd) == Gather(world, files, n, rd)
  {
    forall rd | WellFormed(world) && CanCluster(rd)
      ensures Gather(world, files, n + 1, rd) == Gather(world, files, n, rd)
    {
      assert Observe(world, files[n], rd).None?;
    }
  }

  /** One pass of the loop body (app.py:55-90) over `files[i]`: it keeps the
      loop invariant, or stops the analysis because the first loaded image
      is too small to cluster. */
  method Visit(world: World, files: seq<string>, i: nat, st: LoopState) returns (r: Result<LoopState, Error>)
    requires WellFormed(world) && i < |files|
    ensures Scanned(world, files, i, st) && r.Ok? ==> Scanned(world, files, i + 1, r.value)
    ensures Scanned(world, files, i, st) && r.Err? ==> r.error == ImageTooSmall && Collect(world, files) == Err(ImageTooSmall)
  {
    var f := files[i];
    ghost var first := FirstImage(world, files, i);
    var year := FileNames.ParseYear(f);
    if year.None? {
      NotLoadedNext(world, files, i);
      return Ok(st);
    }
    var image := world.read(f);
    if image.None? {
      NotLoadedNext(world, files, i);
      return Ok(st);
    }
    assert Loaded(world, f);
    var next := st;
    if st.originalW == 0 {
      var resized := ResizeDims(image.value);
      next := LoopState(st.samples, image.value.w, image.value.h, resized.w, resized.h);
    }
    var rd := Dims(next.resizedW, next.resizedH);
    if !CanCluster(rd) {
      FirstImageOfExtension(world, files, i + 1, |files|);
      return Err(ImageTooSmall);
    }
    if first.None? {
      GatherBeforeFirstImage(world, files, i, rd);
    }
    var obs := Measure(world, f, year.value, rd);
    assert Observe(world, f, rd) == obs;
    GatherNext(world, files, i, rd);
    if obs.Some? {
      next := next.(samples := next.samples + [obs.value]);
    }
    r := Ok(next);
  }

  /** The loop of app.py:51-90 as the source writes it, over the sorted
      image files: it computes exactly what `Collect` describes, and so every
      recorded sample has a positive area and a centroid inside the
      analysis frame. */
  method CollectSamples(world: World, files: seq<string>) returns (r: Result<Collection, Error>)
    requires WellFormed(world)
    ensures r == Collect(world, files)
    ensures r.Ok? ==> forall i :: 0 <= i < |r.value.samples| ==> ValidSample(r.value.samples[i], r.value.resized)
  {
    var st := LoopState([], 0, 0, 0, 0);
    var i := 0;
    while i < |files|
      invariant 0 <= i <= |files|
      invariant Scanned(world, files, i, st)
    {
      var next := Visit(world, files, i, st);
      if next.Err? {
        return Err(next.error);
      }
      st := next.value;
      i := i + 1;
    }
    r := Ok(Collection(st.samples, Dims(st.originalW, st.originalH), Dims(st.resizedW, st.resizedH)));
  }

  /* ---------------------------------------------------------------------- */
  /* historical_data.sort(key=lambda x: x['year'])                            */
  /* ---------------------------------------------------------------------- */

  predicate YearsSorted(s: seq<Sample>) {
    forall i, j :: 0 <= i < j < |s| ==> s[i].year <= s[j].year
  }

  /** The samples of year `y`, in their order in `s`. */
  function WithYear(s: seq<Sample>, y: nat): seq<Sample> {
    if |s| == 0 then [] else (if s[0].year == y then [s[0]] else []) + WithYear(s[1..], y)
  }

  /** Inserts `x` before the first sample whose year is not below its own, so
      that `x` stays ahead of the samples of its year. */
  function InsertByYear(x: Sample, s: seq<Sample>): (r: seq<Sample>)
    ensures |r| == |s| + 1
    ensures r[0] == x || (|s| > 0 && r[0] == s[0])
  {
    if |s| == 0 then [x]
    else if x.year <= s[0].year then [x] + s
    else [s[0]] + InsertByYear(x, s[1..])
  }

  /** Insertion into a year-sorted sequence keeps it sorted. */
  lemma {:induction false} InsertByYearSorted(x: Sample, s: seq<Sample>)
    requires YearsSorted(s)
    ensures YearsSorted(InsertByYear(x, s))
  {
    if |s| > 0 && x.year > s[0].year {
      var t := InsertByYear(x, s[1..]);
      var r := [s[0]] + t;
      assert r == InsertByYear(x, s);
      assert YearsSorted(s[1..]) by {
        forall i, j | 0 <= i < j < |s| - 1
          ensures s[1..][i].year <= s[1..][j].year
        {
          assert s[1..][i] == s[i + 1] && s[1..][j] == s[j + 1];
        }
      }
      InsertByYearSorted(x, s[1..]);
      assert s[0].year <= t[0].year;
      forall i, j | 0 <= i < j < |r|
        ensures r[i].year <= r[j].year
      {
        if i == 0 {
          if j > 1 {
            assert t[0].year <= t[j - 1].year;
          }
        } else {
          assert r[i] == t[i - 1] && r[j] == t[j - 1];
        }
      }
    }
  }

  lemma {:induction false} InsertByYearPerm(x: Sample, s: seq<Sample>)
    ensures multiset(InsertByYear(x, s)) == multiset(s) + multiset{x}
  {
    if |s| > 0 && x.year > s[0].year {
      InsertByYearPerm(x, s[1..]);
      assert s == [s[0]] + s[1..];
    }
  }

  lemma WithYearCons(a: Sample, t: seq<Sample>, y: nat)
    ensures WithYear([a] + t, y) == (if a.year == y then [a] else []) + WithYear(t, y)
  {
    assert ([a] + t)[1..] == t;
  }

  /** Among the samples of any one year, insertion puts `x` first and keeps
      the others in order. */
  lemma {:induction false} InsertByYearStable(x: Sample, s: seq<Sample>, y: nat)
    ensures WithYear(InsertByYear(x, s), y) == (if x.year == y then [x] else []) + WithYear(s, y)
  {
    if |s| == 0 || x.year <= s[0].year {
      assert InsertByYear(x, s) == [x] + s;
      WithYearCons(x, s, y);
    } else {
      var t := InsertByYear(x, s[1..]);
      assert InsertByYear(x, s) == [s[0]] + t;
      WithYearCons(s[0], t, y);
      InsertByYearStable(x, s[1..], y);
      assert s == [s[0]] + s[1..];
      WithYearCons(s[0], s[1..], y);
      if x.year == y {
        assert s[0].year != y;
      }
    }
  }

  /** Python's sort by year (an insertion sort: `list.sort` is stable, and so
      is inserting each sample ahead of the later ones of its year). */
  function SortByYear(s: seq<Sample>): (r: seq<Sample>)
    ensures |r| == |s|
  {
    if |s| == 0 then [] else InsertByYear(s[0], SortByYear(s[1..]))
  }

  /** The sort orders the samples by ascending year. */
  lemma {:induction false} SortByYearSorted(s: seq<Sample>)
    ensures YearsSorted(SortByYear(s))
  {
    if |s| > 0 {
      SortByYearSorted(s[1..]);
      InsertByYearSorted(s[0], SortByYear(s[1..]));
    }
  }

  /** The sort keeps every sample, as often as it occurs. */
  lemma {:induction false} SortByYearPerm(s: seq<Sample>)
    ensures multiset(SortByYear(s)) == multiset(s)
  {
    if |s| > 0 {
      var rest := SortByYear(s[1..]);
      SortByYearPerm(s[1..]);
      InsertByYearPerm(s[0], rest);
      assert SortByYear(s) == InsertByYear(s[0], rest);
      MultisetOfTail(s);
    }
  }

  lemma MultisetOfTail<T>(s: seq<T>)
    requires |s| > 0
    ensures multiset(s) == multiset(s[1..]) + multiset{s[0]}
  {
    assert s == [s[0]] + s[1..];
  }

  /** The sort is stable: the samples of each year keep their order. */
  lemma {:induction false} SortByYearStable(s: seq<Sample>)
    ensures forall y :: WithYear(SortByYear(s), y) == WithYear(s, y)
  {
    if |s| > 0 {
      SortByYearStable(s[1..]);
      forall y
        ensures WithYear(SortByYear(s), y) == WithYear(s, y)
      {
        InsertByYearStable(s[0], SortByYear(s[1..]), y);
      }
    }
  }

  lemma {:induction false} WithYearAppend(s: seq<Sample>, x: Sample, y: nat)
    ensures WithYear(s + [x], y) == WithYear(s, y) + (if x.year == y then [x] else [])
  {
    if |s| > 0 {
      assert (s + [x])[1..] == s[1..] + [x];
      WithYearAppend(s[1..], x, y);
    } else {
      assert ([x])[1..] == [];
    }
  }

  lemma {:induction false} WithYearMembers(s: seq<Sample>, y: nat)
    ensures forall x :: x in WithYear(s, y) <==> x in s && x.year == y
  {
    if |s| > 0 {
      WithYearMembers(s[1..], y);
      assert s == [s[0]] + s[1..];
    }
  }

  /* ---------------------------------------------------------------------- */
  /* The analysis                                                             */
  /* ---------------------------------------------------------------------- */

  /** The state at app.py:113: the samples sorted by year and the base
      sample `last_data`. */
  datatype Analysis = Analysis(samples: seq<Sample>, last: Sample, original: Dims, resized: Dims)

  predicate ValidAnalysis(a: Analysis) {
    && |a.samples| >= 2
    && a.last == a.samples[|a.samples| - 1]
    && YearsSorted(a.samples)
    && a.resized == ResizeDims(a.original)
    && CanCluster(a.resized)
    && forall i :: 0 <= i < |a.samples| ==> ValidSample(a.samples[i], a.resized)
  }

  /** The samples the directory listing yields, when it yields no error. */
  function Collected(world: World, listing: seq<string>): Result<Collection, Error>
    requires WellFormed(world)
  {
    Collect(world, FileNames.PngFiles(listing))
  }

  /** Sorting keeps every sample, so it keeps every sample valid. */
  lemma SortKeepsValid(s: seq<Sample>, rd: Dims)
    requires forall i :: 0 <= i < |s| ==> ValidSample(s[i], rd)
    ensures forall i :: 0 <= i < |SortByYear(s)| ==> ValidSample(SortByYear(s)[i], rd)
  {
    var t := SortByYear(s);
    SortByYearPerm(s);
    forall i | 0 <= i < |t|
      ensures ValidSample(t[i], rd)
    {
      assert t[i] in multiset(s);
      var j :| 0 <= j < |s| && s[j] == t[i];
    }
  }

  /** app.py:92-113 for a successful collection: fewer than two samples is
      an error; otherwise the samples are sorted and the last is the base. */
  function Conclude(c: Collection): (r: Result<Analysis, Error>)
    ensures r.Ok? <==> |c.samples| >= 2
    ensures r.Err? ==> r.error == InsufficientData
  {
    if |c.samples| < 2 then Err(InsufficientData)
    else
      var sorted := SortByYear(c.samples);
      Ok(Analysis(sorted, sorted[|sorted| - 1], c.original, c.resized))
  }

  /** What the loop guarantees carries over to the analysis. */
  lemma ConcludeValid(c: Collection)
    requires WellRecorded(c) && Conclude(c).Ok?
    ensures ValidAnalysis(Conclude(c).value)
  {
    var a := Conclude(c).value;
    assert a.samples == SortByYear(c.samples);
    SortByYearSorted(c.samples);
    SortKeepsValid(c.samples, c.resized);
    assert forall i :: 0 <= i < |a.samples| ==> ValidSample(a.samples[i], a.resized);
  }

  /** The samples of each year keep the order the loop recorded them in. */
  lemma ConcludeKeepsYearOrder(c: Collection)
    requires Conclude(c).Ok?
    ensures forall y :: WithYear(Conclude(c).value.samples, y) == WithYear(c.samples, y)
  {
    SortByYearStable(c.samples);
  }

  /** `y` is the year of some recorded sample and no recorded sample is
      later. */
  predicate IsLatestYear(y: nat, collected: seq<Sample>) {
    && (forall i :: 0 <= i < |collected| ==> collected[i].year <= y)
    && exists i :: 0 <= i < |collected| && collected[i].year == y
  }

  /** `x` is the sample the analysis should take as its base: it was
      recorded, no recorded sample is later, and it is the last recorded
      sample of its year. */
  predicate IsLatest(x: Sample, collected: seq<Sample>) {
    && x in collected
    && IsLatestYear(x.year, collected)
    && |WithYear(collected, x.year)| > 0
    && x == WithYear(collected, x.year)[|WithYear(collected, x.year)| - 1]
  }

  /** In a year-sorted `s` that holds the samples of every year in the order
      `collected` holds them, the last element is the latest of
      `collected`. */
  lemma LastOfStableSort(s: seq<Sample>, collected: seq<Sample>)
    requires |s| > 0 && YearsSorted(s)
    requires forall y :: WithYear(s, y) == WithYear(collected, y)
    ensures IsLatest(s[|s| - 1], collected)
  {
    var n := |s| - 1;
    var top := s[n].year;
    assert s == s[..n] + [s[n]];
    WithYearAppend(s[..n], s[n], top);
    WithYearMembers(s, top);
    WithYearMembers(collected, top);
    assert s[n] in WithYear(s, top);
    forall i | 0 <= i < |collected|
      ensures collected[i].year <= top
    {
      var y := collected[i].year;
      WithYearMembers(s, y);
      WithYearMembers(collected, y);
      assert collected[i] in WithYear(collected, y);
      assert collected[i] in WithYear(s, y);
      var j :| 0 <= j < |s| && s[j] == collected[i];
    }
  }

  /** The base sample of a concluded analysis is the latest recorded one:
      its year is the latest year of any recorded sample, and it is the last
      file of that year in name order (the sort is stable). */
  lemma ConcludeBaseIsLatest(c: Collection)
    requires Conclude(c).Ok?
    ensures IsLatest(Conclude(c).value.last, c.samples)
  {
    SortByYearSorted(c.samples);
    SortByYearStable(c.samples);
    LastOfStableSort(SortByYear(c.samples), c.samples);
  }

  /** app.py:42-113. `listing` is `os.listdir(IMAGE_FOLDER)`, None when the
      folder does not exist. */
  function Analyse(world: World, listing: Option<seq<string>>): (r: Result<Analysis, Error>)
    requires WellFormed(world)
    ensures listing.None? ==> r == Err(FolderNotFound)
    ensures listing.Some? && |FileNames.PngFiles(listing.value)| == 0 ==> r == Err(NoPngFiles)
    ensures listing.Some? && |FileNames.PngFiles(listing.value)| > 0 && Collected(world, listing.value).Err? ==>
              r == Err(ImageTooSmall)
    ensures r == Err(InsufficientData) <==>
              listing.Some? && |FileNames.PngFiles(listing.value)| > 0 && Collected(world, listing.value).Ok?
              && |Collected(world, listing.value).value.samples| < 2
    ensures r.Ok? <==> listing.Some? && Collected(world, listing.value).Ok?
                       && |Collected(world, listing.value).value.samples| >= 2
  {
    match listing
    case None => Err(FolderNotFound)
    case Some(names) =>
      var files := FileNames.PngFiles(names);
      if |files| == 0 then Err(NoPngFiles)
      else
        match Collect(world, files)
        case Err(e) => Err(e)
        case Ok(c) => Conclude(c)
  }

  /** A successful analysis holds at least two valid samples sorted by year,
      the last of them its base. */
  lemma AnalyseValid(world: World, listing: seq<string>)
    requires WellFormed(world)
    ensures Analyse(world, Some(listing)).Ok? ==> ValidAnalysis(Analyse(world, Some(listing)).value)
  {
    if Analyse(world, Some(listing)).Ok? {
      var c := Collected(world, listing).value;
      assert Analyse(world, Some(listing)) == Conclude(c);
      ConcludeValid(c);
    }
  }

  /** The analysis sorts exactly the samples the loop recorded. */
  lemma AnalysePermutes(world: World, listing: seq<string>)
    requires WellFormed(world)
    ensures Analyse(world, Some(listing)).Ok? ==>
              multiset(Analyse(world, Some(listing)).value.samples) == multiset(Collected(world, listing).value.samples)
  {
    if Analyse(world, Some(listing)).Ok? {
      var c := Collected(world, listing).value;
      assert Analyse(world, Some(listing)) == Conclude(c);
      SortByYearPerm(c.samples);
    }
  }

  /** Every sample of the analysis carries the year of its file name. */
  lemma AnalyseNamedByYear(world: World, listing: seq<string>)
    requires WellFormed(world)
    ensures Analyse(world, Some(listing)).Ok? ==>
              forall i :: 0 <= i < |Analyse(world, Some(listing)).value.samples| ==> NamedByYear(Analyse(world, Some(listing)).value.samples[i])
  {
    if Analyse(world, Some(listing)).Ok? {
      var c := Collected(world, listing).value;
      var sorted := Analyse(world, Some(listing)).value.samples;
      AnalysePermutes(world, listing);
      CollectNamedByYear(world, FileNames.PngFiles(listing));
      forall i | 0 <= i < |sorted|
        ensures NamedByYear(sorted[i])
      {
        assert sorted[i] in multiset(c.samples);
        var j :| 0 <= j < |c.samples| && c.samples[j] == sorted[i];
      }
    }
  }

  /** The sort is stable: samples of one year stay in file-name order. */
  lemma AnalyseKeepsYearOrder(world: World, listing: seq<string>)
    requires WellFormed(world)
    ensures Analyse(world, Some(listing)).Ok? ==>
              forall y :: WithYear(Analyse(world, Some(listing)).value.samples, y) == WithYear(Collected(world, listing).value.samples, y)
  {
    if Analyse(world, Some(listing)).Ok? {
      var c := Collected(world, listing).value;
      assert Analyse(world, Some(listing)) == Conclude(c);
      ConcludeKeepsYearOrder(c);
    }
  }

  /** `last_data = historical_data[-1]` (app.py:113) is the latest sample the
      loop recorded, and among samples of that year the one read last. */
  lemma BaseSampleIsLatest(world: World, listing: seq<string>)
    requires WellFormed(world)
    ensures Analyse(world, Some(listing)).Ok? ==>
              IsLatest(Analyse(world, Some(listing)).value.last, Collected(world, listing).value.samples)
  {
    if Analyse(world, Some(listing)).Ok? {
      var c := Collected(world, listing).value;
      assert Analyse(world, Some(listing)) == Conclude(c);
      ConcludeBaseIsLatest(c);
    }
  }
}
