/** Choosing the "urban" colour cluster: the k-means centre nearest to a
    reference colour (app.py lines 14-15 and 24-27). The clustering itself is
    not modelled; its centres are an input. */
module Clusters {
  import Arith

  /** An RGB colour; k-means centres are means of pixels, hence real. */
  datatype Rgb = Rgb(r: real, g: real, b: real)

  /** `N_CLUSTERS`: the number of k-means centres. */
  const N_CLUSTERS: nat := 4

  /** `URBAN_REFERENCE_COLOR`. */
  const URBAN_REFERENCE: Rgb := Rgb(120.0, 110.0, 100.0)

  /** The squared Euclidean distance between two colours: never negative,
      and zero from a colour to itself. The source compares `np.linalg.norm`
      values; squaring non-negative values keeps their order (see
      `ArgminOfNormsAgrees`). */
  function SqDist(c: Rgb, ref: Rgb): (d: real)
    ensures d >= 0.0
    ensures c == ref ==> d == 0.0
  {
    Arith.SquareNonNegative(c.r - ref.r);
    Arith.SquareNonNegative(c.g - ref.g);
    Arith.SquareNonNegative(c.b - ref.b);
    (c.r - ref.r) * (c.r - ref.r) + (c.g - ref.g) * (c.g - ref.g) + (c.b - ref.b) * (c.b - ref.b)
  }

  /** `i` is an index of a minimal value of `vals`, and no earlier index holds
      that minimum: the answer `np.argmin` gives. */
  predicate IsFirstArgmin(vals: seq<real>, i: int) {
    && 0 <= i < |vals|
    && (forall j :: 0 <= j < |vals| ==> vals[i] <= vals[j])
    && (forall j :: 0 <= j < i ==> vals[i] < vals[j])
  }

  /** The squared distance of every centre from `ref`: one non-negative value
      per centre, zero for a centre that is `ref` itself. */
  function Distances(centres: seq<Rgb>, ref: Rgb): (d: seq<real>)
    ensures |d| == |centres|
    ensures forall j :: 0 <= j < |d| ==> d[j] >= 0.0
    ensures forall j :: 0 <= j < |d| && centres[j] == ref ==> d[j] == 0.0
  {
    seq(|centres|, j requires 0 <= j < |centres| => SqDist(centres[j], ref))
  }

  /** `find_urban_cluster_index`: the first centre at minimum distance from
      `ref`. The scan keeps the earlier index unless a later one is strictly
      nearer, which is how `np.argmin` breaks ties. */
  function NearestIndex(centres: seq<Rgb>, ref: Rgb): (i: nat)
    requires |centres| > 0
    ensures IsFirstArgmin(Distances(centres, ref), i)
  {
    if |centres| == 1 then 0
    else
      var k := |centres| - 1;
      var i := NearestIndex(centres[..k], ref);
      assert Distances(centres[..k], ref) == Distances(centres, ref)[..k];
      if SqDist(centres[k], ref) < SqDist(centres[i], ref) then k else i
  }

  /** Taking non-negative square roots of the values keeps the first argmin. */
  lemma ArgminOfRoots(vals: seq<real>, roots: seq<real>, i: int)
    requires |roots| == |vals| && IsFirstArgmin(vals, i)
    requires forall j :: 0 <= j < |roots| ==> roots[j] >= 0.0 && roots[j] * roots[j] == vals[j]
    ensures IsFirstArgmin(roots, i)
  {
    forall j | 0 <= j < |roots|
      ensures roots[i] <= roots[j]
    {
      SquareMonotone(roots[i], roots[j]);
    }
    forall j | 0 <= j < i
      ensures roots[i] < roots[j]
    {
      SquareMonotone(roots[i], roots[j]);
    }
  }

  /** Comparing squared distances picks the same centre as comparing the
      Euclidean norms the source computes: for any non-negative `norms` whose
      squares are the squared distances, `np.argmin(norms)` is
      `NearestIndex`. */
  lemma ArgminOfNormsAgrees(centres: seq<Rgb>, ref: Rgb, norms: seq<real>)
    requires |centres| > 0 && |norms| == |centres|
    requires forall j :: 0 <= j < |norms| ==> norms[j] >= 0.0
    requires forall j :: 0 <= j < |norms| ==> norms[j] * norms[j] == SqDist(centres[j], ref)
    ensures IsFirstArgmin(norms, NearestIndex(centres, ref))
  {
    ArgminOfRoots(Distances(centres, ref), norms, NearestIndex(centres, ref));
  }

  /** On non-negative reals squaring keeps the order both ways. */
  lemma SquareMonotone(a: real, b: real)
    requires a >= 0.0 && b >= 0.0
    ensures a < b ==> a * a < b * b
    ensures a * a < b * b ==> a < b
    ensures a <= b ==> a * a <= b * b
    ensures a * a <= b * b ==> a <= b
  {
    if a < b {
      Arith.MulPos(b - a, b + a);
      assert (b - a) * (b + a) == b * b - a * a;
    } else if b < a {
      Arith.MulPos(a - b, a + b);
      assert (a - b) * (a + b) == a * a - b * b;
    }
  }
}
