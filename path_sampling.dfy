/**
 * Poses of the global path and sampling_path: the dense path (one pose per
 * visited cell) is thinned to every eighth pose, each oriented toward the
 * pose eight cells ahead, and the final pose of the dense path is appended.
 */
module PathSampling {
  import opened GridCells

  /** How the orientation of a pose was obtained. */
  datatype Heading =
    | Move(index: int)               // the yaw column of the move table, MoveYaw(index)
    | Bearing(from: Cell, to: Cell)  // atan2 of the displacement between two cells
    | NoMove                         // no move led into the cell

  /** A path pose, in cell coordinates (the published pose is cell * resolution + origin). */
  datatype Pose = Pose(cell: Cell, heading: Heading)

  /** The sampling stride. */
  const Stride: nat := 8

  /** Number of iterations of the sampling loop over a dense path of n poses. */
  function SampleCount(n: nat): nat
  {
    (n + Stride - 1) / Stride
  }

  function Min(a: int, b: int): int
  {
    if a <= b then a else b
  }

  /**
   * The samples produced by the iterations i, i + 8, ... of the loop. The
   * bearing of a sample looks eight poses ahead, or at the last pose when
   * fewer remain; the iteration that reaches the end appends the final pose
   * with the previous sample's heading.
   */
  function SampleFrom(dense: seq<Pose>, i: nat): seq<Pose>
    decreases |dense| - i
  {
    if i >= |dense| then []
    else
      var ahead := Min(i + Stride, |dense| - 1);
      var p := Pose(dense[i].cell, Bearing(dense[i].cell, dense[ahead].cell));
      if i + Stride >= |dense| then [p, Pose(dense[|dense| - 1].cell, p.heading)]
      else [p] + SampleFrom(dense, i + Stride)
  }

  /** The sparse path that sampling_path builds from the dense path. */
  function Sampled(dense: seq<Pose>): seq<Pose>
  {
    SampleFrom(dense, 0)
  }

  lemma {:induction false} SampleFromShape(dense: seq<Pose>, q: nat)
    requires q * Stride < |dense|
    ensures SampleCount(|dense|) > q
    ensures var s := SampleFrom(dense, q * Stride); var m := SampleCount(|dense|);
      && |s| == m - q + 1
      && (forall j :: 0 <= j < m - q ==>
            && s[j].cell == dense[(q + j) * Stride].cell
            && s[j].heading == Bearing(dense[(q + j) * Stride].cell, dense[Min((q + j) * Stride + Stride, |dense| - 1)].cell))
      && s[m - q].cell == dense[|dense| - 1].cell
      && s[m - q].heading == s[m - q - 1].heading
    decreases |dense| - q * Stride
  {
    var n := |dense|;
    var i := q * Stride;
    var s := SampleFrom(dense, i);
    if i + Stride >= n {
      assert SampleCount(n) == q + 1;
    } else {
      assert (q + 1) * Stride == i + Stride;
      SampleFromShape(dense, q + 1);
      var rest := SampleFrom(dense, (q + 1) * Stride);
      assert s == [s[0]] + rest;
      forall j | 0 <= j < SampleCount(n) - q
        ensures s[j].cell == dense[(q + j) * Stride].cell
        ensures s[j].heading == Bearing(dense[(q + j) * Stride].cell, dense[Min((q + j) * Stride + Stride, n - 1)].cell)
      {
        if j > 0 {
          assert s[j] == rest[j - 1];
          assert (q + 1 + (j - 1)) * Stride == (q + j) * Stride;
        }
      }
    }
  }

  /**
   * Shape of the sparse path of a non-empty dense path: one sample per
   * iteration, sample j is dense pose 8j oriented toward the pose eight ahead
   * (or the last pose), and one more entry, the dense path's final pose with
   * the previous sample's heading. Every index used lies in the dense path.
   */
  lemma SampledShape(dense: seq<Pose>)
    requires |dense| > 0
    ensures var s := Sampled(dense); var m := SampleCount(|dense|);
      && m >= 1
      && |s| == m + 1
      && (forall j :: 0 <= j < m ==>
            && j * Stride < |dense|
            && s[j].cell == dense[j * Stride].cell
            && s[j].heading == Bearing(dense[j * Stride].cell, dense[Min(j * Stride + Stride, |dense| - 1)].cell))
      && s[m].cell == dense[|dense| - 1].cell
      && s[m].heading == s[m - 1].heading
  {
    SampleFromShape(dense, 0);
    forall j | 0 <= j < SampleCount(|dense|)
      ensures j * Stride < |dense|
    {
    }
  }

  /** The empty dense path gives an empty sparse path. */
  lemma SampledEmpty(dense: seq<Pose>)
    requires dense == []
    ensures Sampled(dense) == []
  {
  }

  // ---- sampling_path as written ----

  /**
   * The dense indices read at i + step by the loop as written, one per
   * iteration i = 0, 8, ... below the path size n.
   */
  function BearingReadsAsWritten(n: nat, i: nat): seq<int>
    decreases n - i
  {
    if i >= n then [] else [i + Stride] + BearingReadsAsWritten(n, i + Stride)
  }

  /**
   * The dense indices that the loop as written copies into the sparse path:
   * pose i on every iteration, and the last pose only when i + step > n.
   */
  function SampledIndicesAsWritten(n: nat, i: nat): seq<int>
    decreases n - i
  {
    if i >= n then []
    else [i] + (if i + Stride > n then [n - 1] else []) + SampledIndicesAsWritten(n, i + Stride)
  }

  /**
   * As written, the last iteration over any non-empty path reads the pose at
   * i + 8, which is at or past the end of the dense path.
   */
  lemma {:induction false} LastBearingReadPastEnd(n: nat, i: nat)
    requires i < n
    ensures |BearingReadsAsWritten(n, i)| > 0
    ensures BearingReadsAsWritten(n, i)[|BearingReadsAsWritten(n, i)| - 1] >= n
    decreases n - i
  {
    var rd := BearingReadsAsWritten(n, i);
    var rest := BearingReadsAsWritten(n, i + Stride);
    assert rd == [i + Stride] + rest;
    if i + Stride < n {
      LastBearingReadPastEnd(n, i + Stride);
      assert rd[|rd| - 1] == rest[|rest| - 1];
    } else {
      assert rest == [];
    }
  }

  /**
   * As written, a dense path whose size is a multiple of 8 loses its final
   * pose: the last index copied is n - 8, not n - 1.
   */
  lemma {:induction false} AsWrittenDropsEndOnMultiple(n: nat, q: nat)
    requires n % Stride == 0 && q * Stride < n
    ensures var s := SampledIndicesAsWritten(n, q * Stride);
      |s| > 0 && s[|s| - 1] == n - Stride && s[|s| - 1] != n - 1
    decreases n - q * Stride
  {
    var i := q * Stride;
    if i + Stride < n {
      assert (q + 1) * Stride == i + Stride;
      AsWrittenDropsEndOnMultiple(n, q + 1);
    } else {
      assert i + Stride == n;
    }
  }
}
