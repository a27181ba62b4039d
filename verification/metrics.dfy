/** The urban mask and its metrics (app.py lines 29-37 and 80): the mask marks
    the pixels of the chosen cluster with 255; its area is the number of those
    pixels and its centroid comes from the raw image moments. */
module Metrics {
  import opened Wrappers
  import Arith

  /** A single-channel 8-bit image, row by row: `m[y][x]`. */
  type Mask = seq<seq<int>>

  /** The value `astype(np.uint8) * 255` gives a selected pixel. */
  const SET: int := 255

  datatype Point = Point(x: int, y: int)

  /** `calculate_metrics`'s result: the area and, when the mask is not empty,
      the centroid. */
  datatype MaskMetrics = MaskMetrics(area: nat, centroid: Option<Point>)

  predicate IsBinary(m: Mask) {
    forall y, x :: 0 <= y < |m| && 0 <= x < |m[y]| ==> m[y][x] == 0 || m[y][x] == SET
  }

  predicate IsBinaryRow(row: seq<int>) {
    forall x :: 0 <= x < |row| ==> row[x] == 0 || row[x] == SET
  }

  /** `h` rows of `w` pixels each. */
  predicate IsRect<T>(m: seq<seq<T>>, w: nat, h: nat) {
    |m| == h && forall y :: 0 <= y < h ==> |m[y]| == w
  }

  /** app.py:80: 255 where the pixel's cluster label is `k`, 0 elsewhere. */
  function UrbanMask(labels: seq<seq<nat>>, k: nat): (m: Mask)
    ensures |m| == |labels|
    ensures forall y :: 0 <= y < |m| ==> |m[y]| == |labels[y]|
    ensures IsBinary(m)
    ensures forall y, x :: 0 <= y < |m| && 0 <= x < |m[y]| ==> (m[y][x] == SET <==> labels[y][x] == k)
  {
    seq(|labels|, y requires 0 <= y < |labels| =>
      seq(|labels[y]|, x requires 0 <= x < |labels[y]| => if labels[y][x] == k then SET else 0))
  }

  /* ---------------------------------------------------------------------- */
  /* Raw image moments, as `cv2.moments` defines them                         */
  /* ---------------------------------------------------------------------- */

  /** Sum of the intensities of one row. */
  function RowSum(row: seq<int>): int {
    if |row| == 0 then 0 else RowSum(row[..|row| - 1]) + row[|row| - 1]
  }

  /** Sum over one row of `x * I(x)`. */
  function RowXSum(row: seq<int>): int {
    if |row| == 0 then 0 else RowXSum(row[..|row| - 1]) + (|row| - 1) * row[|row| - 1]
  }

  /** m00 = sum of I(x, y); on a mask of 0s and 255s, 255 times the number
      of set pixels. */
  function M00(m: Mask): (r: int)
    ensures IsBinary(m) ==> r == SET * Count(m)
  {
    if |m| == 0 then 0
    else
      LastRowMoments(m);
      M00(m[..|m| - 1]) + RowSum(m[|m| - 1])
  }

  /** m10 = sum of x * I(x, y); on a mask of 0s and 255s, 255 times the sum
      of the set pixels' x coordinates. */
  function M10(m: Mask): (r: int)
    ensures IsBinary(m) ==> r == SET * SumX(m)
  {
    if |m| == 0 then 0
    else
      LastRowMoments(m);
      M10(m[..|m| - 1]) + RowXSum(m[|m| - 1])
  }

  /** m01 = sum of y * I(x, y); on a mask of 0s and 255s, 255 times the sum
      of the set pixels' y coordinates. */
  function M01(m: Mask): (r: int)
    ensures IsBinary(m) ==> r == SET * SumY(m)
  {
    if |m| == 0 then 0
    else
      var k := |m| - 1;
      LastRowMoments(m);
      ScaleMoment(k, RowSum(m[k]), RowCount(m[k]));
      M01(m[..k]) + k * RowSum(m[k])
  }

  /* ---------------------------------------------------------------------- */
  /* The set pixels, counted directly                                         */
  /* ---------------------------------------------------------------------- */

  /** Number of set pixels in a row. */
  function RowCount(row: seq<int>): nat {
    if |row| == 0 then 0 else RowCount(row[..|row| - 1]) + (if row[|row| - 1] == SET then 1 else 0)
  }

  /** Sum of the x coordinates of the set pixels in a row. */
  function RowXSet(row: seq<int>): nat {
    if |row| == 0 then 0 else RowXSet(row[..|row| - 1]) + (if row[|row| - 1] == SET then |row| - 1 else 0)
  }

  /** Number of set pixels. */
  function Count(m: Mask): nat {
    if |m| == 0 then 0 else Count(m[..|m| - 1]) + RowCount(m[|m| - 1])
  }

  /** Sum of the x coordinates of the set pixels. */
  function SumX(m: Mask): nat {
    if |m| == 0 then 0 else SumX(m[..|m| - 1]) + RowXSet(m[|m| - 1])
  }

  /** Sum of the y coordinates of the set pixels. */
  function SumY(m: Mask): nat {
    if |m| == 0 then 0 else SumY(m[..|m| - 1]) + (|m| - 1) * RowCount(m[|m| - 1])
  }

  /* ---------------------------------------------------------------------- */
  /* Moments of a binary mask are 255 times the pixel sums                    */
  /* ---------------------------------------------------------------------- */

  lemma {:induction false} RowMoments(row: seq<int>)
    requires IsBinaryRow(row)
    ensures RowSum(row) == SET * RowCount(row)
    ensures RowXSum(row) == SET * RowXSet(row)
  {
    if |row| > 0 {
      RowMoments(row[..|row| - 1]);
    }
  }

  /** A binary mask's rows before the last form a binary mask, and its last
      row's moments are 255 times that row's pixel sums. */
  lemma LastRowMoments(m: Mask)
    requires |m| > 0
    ensures IsBinary(m) ==>
              var row := m[|m| - 1];
              && IsBinary(m[..|m| - 1])
              && RowSum(row) == SET * RowCount(row)
              && RowXSum(row) == SET * RowXSet(row)
  {
    if IsBinary(m) {
      var k := |m| - 1;
      var row := m[k];
      assert IsBinaryRow(row) by {
        forall x | 0 <= x < |row|
          ensures row[x] == 0 || row[x] == SET
        {
          assert row[x] == m[k][x];
        }
      }
      RowMoments(row);
    }
  }

  lemma ScaleMoment(k: int, moment: int, count: int)
    ensures moment == SET * count ==> k * moment == SET * (k * count)
  {
  }

  /* ---------------------------------------------------------------------- */
  /* Bounds                                                                   */
  /* ---------------------------------------------------------------------- */

  lemma {:induction false} RowBounds(row: seq<int>, w: nat)
    requires |row| <= w
    ensures RowCount(row) <= |row|
    ensures RowXSet(row) <= (w - 1) * RowCount(row)
  {
    if |row| > 0 {
      var p := row[..|row| - 1];
      RowBounds(p, w);
      if row[|row| - 1] == SET {
        assert (w - 1) * (RowCount(p) + 1) == (w - 1) * RowCount(p) + (w - 1);
      }
    }
  }

  /** In a mask of `h` rows of width `w`, at most `w * h` pixels are set. */
  lemma {:induction false} CountBound(m: Mask, w: nat)
    requires forall y :: 0 <= y < |m| ==> |m[y]| == w
    ensures Count(m) <= |m| * w
  {
    if |m| > 0 {
      var k := |m| - 1;
      CountBound(m[..k], w);
      RowBounds(m[k], w);
      Arith.MulAddLeft(w, k, 1);
      assert |m| * w == k * w + w;
    }
  }

  /** The x coordinates of the set pixels sum to at most `w - 1` times their
      number. */
  lemma {:induction false} SumXBound(m: Mask, w: nat)
    requires forall y :: 0 <= y < |m| ==> |m[y]| == w
    ensures SumX(m) <= (w - 1) * Count(m)
  {
    if |m| > 0 {
      var k := |m| - 1;
      var p := m[..k];
      SumXBound(p, w);
      RowBounds(m[k], w);
      Arith.MulAddLeft(w - 1, Count(p), RowCount(m[k]));
    }
  }

  /** The y coordinates of the set pixels sum to at most `h - 1` times their
      number. */
  lemma {:induction false} SumYBound(m: Mask, h: nat)
    requires |m| <= h
    ensures SumY(m) <= (h - 1) * Count(m)
  {
    if |m| > 0 {
      var k := |m| - 1;
      var p := m[..k];
      SumYBound(p, h);
      Arith.MulLe(k, h - 1, RowCount(m[k]));
      Arith.MulAddLeft(h - 1, Count(p), RowCount(m[k]));
    }
  }

  /* ---------------------------------------------------------------------- */
  /* Division facts                                                           */
  /* ---------------------------------------------------------------------- */

  lemma DivUnique(n: int, d: int, q: int, r: int)
    requires d > 0 && 0 <= r < d && n == q * d + r
    ensures n / d == q
  {
    var q', r' := n / d, n % d;
    assert n == q' * d + r';
    if q' < q {
      Arith.MulLe(q' + 1, q, d);
    } else if q < q' {
      Arith.MulLe(q + 1, q', d);
    }
  }

  /** Scaling both operands by `c` does not change a floor quotient. */
  lemma DivCancel(a: nat, b: nat, c: nat)
    requires b > 0 && c > 0
    ensures (c * a) / (c * b) == a / b
  {
    var q, r := a / b, a % b;
    assert a == q * b + r;
    assert c * a == q * (c * b) + c * r;
    assert c * r < c * b by {
      Arith.MulLe(r + 1, b, c);
    }
    DivUnique(c * a, c * b, q, c * r);
  }

  lemma DivBelow(a: nat, b: nat, n: nat)
    requires n > 0 && a <= b * n
    ensures a / n <= b
  {
    var q := a / n;
    assert q * n <= a;
    if q > b {
      Arith.MulLe(b + 1, q, n);
    }
  }

  /* ---------------------------------------------------------------------- */
  /* calculate_metrics                                                        */
  /* ---------------------------------------------------------------------- */

  /** `calculate_metrics`: the area is `np.sum(mask) / 255`, i.e. m00 / 255;
      the centroid is `(int(m10 / m00), int(m01 / m00))` when m00 is not 0.
      Moments of a binary mask are non-negative, so truncation is the floor
      division used here. The contract states what this means: the area is
      the number of set pixels, and the centroid is absent exactly when no
      pixel is set and otherwise is the floored mean position of the set
      pixels. */
  function CalculateMetrics(m: Mask): (r: MaskMetrics)
    requires IsBinary(m)
    ensures r.area == Count(m)
    ensures r.centroid.None? <==> Count(m) == 0
    ensures r.centroid.Some? ==> r.centroid.value == Point(SumX(m) / Count(m), SumY(m) / Count(m))
  {
    var m00 := M00(m);
    if m00 != 0 then
      DivCancel(SumX(m), Count(m), SET);
      DivCancel(SumY(m), Count(m), SET);
      MaskMetrics(m00 / SET, Some(Point(M10(m) / m00, M01(m) / m00)))
    else
      MaskMetrics(m00 / SET, None)
  }

  /** A binary mask with any set pixel has a centroid, and `area > 0` then
      holds too: the two halves of the guard at app.py:83 agree. */
  lemma CentroidIffArea(m: Mask)
    requires IsBinary(m)
    ensures CalculateMetrics(m).centroid.Some? <==> CalculateMetrics(m).area > 0
  {
  }

  /** The area never exceeds the number of pixels. */
  lemma AreaBound(m: Mask, w: nat, h: nat)
    requires IsBinary(m) && IsRect(m, w, h)
    ensures CalculateMetrics(m).area <= w * h
  {
    CountBound(m, w);
  }

  /** The centroid of a `w` by `h` mask lies inside the image. */
  lemma CentroidInFrame(m: Mask, w: nat, h: nat)
    requires IsBinary(m) && IsRect(m, w, h)
    ensures CalculateMetrics(m).centroid.Some? ==>
      var p := CalculateMetrics(m).centroid.value;
      0 <= p.x < w && 0 <= p.y < h
  {
    var n := Count(m);
    if n > 0 {
      SumXBound(m, w);
      SumYBound(m, h);
      FlooredMeanBelow(SumX(m), n, w);
      FlooredMeanBelow(SumY(m), n, h);
    }
  }

  /** A floored mean of `n` coordinates below `bound` is below `bound`. */
  lemma FlooredMeanBelow(total: nat, n: nat, bound: nat)
    requires n > 0 && total <= (bound - 1) * n
    ensures 0 <= total / n < bound
  {
    if bound > 0 {
      DivBelow(total, bound - 1, n);
    }
  }
}
