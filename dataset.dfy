/**
 * dataset.go: the older table type, with per-dimension and global minimum
 * and maximum over every value.
 */
module DataSets {
  import GoMath
  import Utils

  datatype DataSet = DataSet(
    Data: seq<seq<real>>,
    Length: int,
    Dimensions: int,
    Minimums: seq<real>,
    Maximums: seq<real>,
    Minimum: real,
    Maximum: real)
  {
    /** The row chosen by the caller's random index. */
    function RandomDataPoint(pick: int): (point: seq<real>)
      requires 0 <= pick < Length && pick < |Data|
      ensures point in Data
    {
      Data[pick]
    }
  }

  /** Every row has at least dimensions entries. */
  predicate Wide(data: seq<seq<real>>, dimensions: int)
  {
    forall j :: 0 <= j < |data| ==> dimensions <= |data[j]|
  }

  /** Cell (j, k) comes before cell (n, i) in row-major order. */
  predicate Visited(j: int, k: int, n: int, i: int, d: int)
  {
    0 <= j && 0 <= k < d && (j < n || (j == n && k < i))
  }

  /** The running statistics bound every cell visited before (n, i) and
      each is attained at its witness. */
  ghost predicate Scanned(data: seq<seq<real>>, d: nat, n: nat, i: nat,
                          mins: seq<real>, maxs: seq<real>, minimum: real, maximum: real,
                          minAt: seq<int>, maxAt: seq<int>, gmin: (int, int), gmax: (int, int))
  {
    && Wide(data, d) && 0 < d && n < |data| && i <= d
    && |mins| == d && |maxs| == d && |minAt| == d && |maxAt| == d
    && (forall k :: 0 <= k < d ==> 0 <= minAt[k] < |data| && data[minAt[k]][k] == mins[k])
    && (forall k :: 0 <= k < d ==> 0 <= maxAt[k] < |data| && data[maxAt[k]][k] == maxs[k])
    && 0 <= gmin.0 < |data| && 0 <= gmin.1 < d && data[gmin.0][gmin.1] == minimum
    && 0 <= gmax.0 < |data| && 0 <= gmax.1 < d && data[gmax.0][gmax.1] == maximum
    && (forall j, k :: Visited(j, k, n, i, d) ==> mins[k] <= data[j][k] <= maxs[k])
    && (forall j, k :: Visited(j, k, n, i, d) ==> minimum <= data[j][k] <= maximum)
  }

  /** Visiting cell (n, i) keeps Scanned. */
  lemma {:induction false} ScanStep(data: seq<seq<real>>, d: nat, n: nat, i: nat,
                 mins: seq<real>, maxs: seq<real>, minimum: real, maximum: real,
                 minAt: seq<int>, maxAt: seq<int>, gmin: (int, int), gmax: (int, int))
    requires Scanned(data, d, n, i, mins, maxs, minimum, maximum, minAt, maxAt, gmin, gmax) && i < d
    ensures var x := data[n][i];
            Scanned(data, d, n, i + 1,
                    mins[i := GoMath.Min(mins[i], x)], maxs[i := GoMath.Max(maxs[i], x)],
                    GoMath.Min(minimum, x), GoMath.Max(maximum, x),
                    if x < mins[i] then minAt[i := n] else minAt,
                    if x > maxs[i] then maxAt[i := n] else maxAt,
                    if x < minimum then (n, i) else gmin,
                    if x > maximum then (n, i) else gmax)
  {
  }

  /** Finishing row n is starting row n + 1. */
  lemma {:induction false} ScanNextRow(data: seq<seq<real>>, d: nat, n: nat,
                    mins: seq<real>, maxs: seq<real>, minimum: real, maximum: real,
                    minAt: seq<int>, maxAt: seq<int>, gmin: (int, int), gmax: (int, int))
    requires Scanned(data, d, n, d, mins, maxs, minimum, maximum, minAt, maxAt, gmin, gmax)
    requires n + 1 < |data|
    ensures Scanned(data, d, n + 1, 0, mins, maxs, minimum, maximum, minAt, maxAt, gmin, gmax)
  {
    assert forall j, k :: Visited(j, k, n + 1, 0, d) ==> Visited(j, k, n, d, d);
  }

  /** The statistics of a data set agree with its data. */
  ghost predicate Summarizes(ds: DataSet)
  {
    && ds.Length == |ds.Data| && 0 <= ds.Dimensions && Wide(ds.Data, ds.Dimensions)
    && |ds.Minimums| == ds.Dimensions && |ds.Maximums| == ds.Dimensions
    && (forall j, i :: 0 <= j < |ds.Data| && 0 <= i < ds.Dimensions ==>
          ds.Minimums[i] <= ds.Data[j][i] <= ds.Maximums[i])
    && (forall i :: 0 <= i < ds.Dimensions ==>
          (exists j :: 0 <= j < |ds.Data| && ds.Data[j][i] == ds.Minimums[i])
          && (exists j :: 0 <= j < |ds.Data| && ds.Data[j][i] == ds.Maximums[i]))
    && (forall j, i :: 0 <= j < |ds.Data| && 0 <= i < ds.Dimensions ==>
          ds.Minimum <= ds.Data[j][i] <= ds.Maximum)
    && (exists j, i :: 0 <= j < |ds.Data| && 0 <= i < ds.Dimensions && ds.Data[j][i] == ds.Minimum)
    && (exists j, i :: 0 <= j < |ds.Data| && 0 <= i < ds.Dimensions && ds.Data[j][i] == ds.Maximum)
  }

  method NewDataSet(data: seq<seq<real>>) returns (ds: DataSet)
    requires 0 < |data| && 0 < |data[0]| && Wide(data, |data[0]|)
    ensures ds.Data == data && ds.Length == |data| && ds.Dimensions == |data[0]|
    ensures Summarizes(ds)
  {
    var d := |data[0]|;
    var mins, maxs := data[0][..d], data[0][..d];
    var minimum, maximum := data[0][0], data[0][0];
    ghost var minAt: seq<int>, maxAt: seq<int> := seq(d, _ => 0), seq(d, _ => 0);
    ghost var gmin: (int, int), gmax: (int, int) := (0, 0), (0, 0);
    for j := 0 to |data|
      invariant j < |data| ==> Scanned(data, d, j, 0, mins, maxs, minimum, maximum, minAt, maxAt, gmin, gmax)
      invariant j == |data| ==> Scanned(data, d, j - 1, d, mins, maxs, minimum, maximum, minAt, maxAt, gmin, gmax)
    {
      mins, maxs, minimum, maximum, minAt, maxAt, gmin, gmax :=
        ScanRow(data, d, j, mins, maxs, minimum, maximum, minAt, maxAt, gmin, gmax);
      if j + 1 < |data| {
        ScanNextRow(data, d, j, mins, maxs, minimum, maximum, minAt, maxAt, gmin, gmax);
      }
    }
    ds := DataSet(data, |data|, d, mins, maxs, minimum, maximum);
    ScanComplete(data, d, mins, maxs, minimum, maximum, minAt, maxAt, gmin, gmax);
  }

  /** The inner loop of NewDataSet: folds row j into the running statistics. */
  method ScanRow(data: seq<seq<real>>, d: nat, j: nat,
                 mins0: seq<real>, maxs0: seq<real>, minimum0: real, maximum0: real,
                 ghost minAt0: seq<int>, ghost maxAt0: seq<int>, ghost gmin0: (int, int), ghost gmax0: (int, int))
    returns (mins: seq<real>, maxs: seq<real>, minimum: real, maximum: real,
             ghost minAt: seq<int>, ghost maxAt: seq<int>, ghost gmin: (int, int), ghost gmax: (int, int))
    requires Scanned(data, d, j, 0, mins0, maxs0, minimum0, maximum0, minAt0, maxAt0, gmin0, gmax0)
    ensures Scanned(data, d, j, d, mins, maxs, minimum, maximum, minAt, maxAt, gmin, gmax)
  {
    mins, maxs, minimum, maximum := mins0, maxs0, minimum0, maximum0;
    minAt, maxAt, gmin, gmax := minAt0, maxAt0, gmin0, gmax0;
    for i := 0 to d
      invariant Scanned(data, d, j, i, mins, maxs, minimum, maximum, minAt, maxAt, gmin, gmax)
    {
      var x := data[j][i];
      ScanStep(data, d, j, i, mins, maxs, minimum, maximum, minAt, maxAt, gmin, gmax);
      if x < mins[i] { minAt := minAt[i := j]; }
      if x > maxs[i] { maxAt := maxAt[i := j]; }
      if x < minimum { gmin := (j, i); }
      if x > maximum { gmax := (j, i); }
      mins := mins[i := GoMath.Min(mins[i], x)];
      maxs := maxs[i := GoMath.Max(maxs[i], x)];
      minimum := GoMath.Min(minimum, x);
      maximum := GoMath.Max(maximum, x);
    }
  }

  /** A scan that has visited every cell gives the statistics. */
  lemma {:induction false} ScanComplete(data: seq<seq<real>>, d: nat,
                     mins: seq<real>, maxs: seq<real>, minimum: real, maximum: real,
                     minAt: seq<int>, maxAt: seq<int>, gmin: (int, int), gmax: (int, int))
    requires 0 < |data|
    requires Scanned(data, d, |data| - 1, d, mins, maxs, minimum, maximum, minAt, maxAt, gmin, gmax)
    ensures Summarizes(DataSet(data, |data|, d, mins, maxs, minimum, maximum))
  {
    var n := |data| - 1;
    assert forall j, k :: 0 <= j < |data| && 0 <= k < d ==> Visited(j, k, n, d, d);
    forall k | 0 <= k < d
      ensures (exists j :: 0 <= j < |data| && data[j][k] == mins[k])
      ensures (exists j :: 0 <= j < |data| && data[j][k] == maxs[k])
    {
      assert data[minAt[k]][k] == mins[k] && data[maxAt[k]][k] == maxs[k];
    }
    assert data[gmin.0][gmin.1] == minimum && data[gmax.0][gmax.1] == maximum;
  }

  /** The table used by dataset_test.go. */
  const Slice: seq<seq<real>> := [[1.0, 0.5, 0.0], [0.0, 0.5, 1.0]]

  /** What NewDataSet promises fixes the statistics dataset_test.go expects. */
  lemma {:induction false} SliceStatistics(ds: DataSet)
    requires Summarizes(ds) && ds.Data == Slice && ds.Dimensions == 3
    ensures ds.Length == 2
    ensures ds.Minimums == [0.0, 0.5, 0.0] && ds.Maximums == [1.0, 0.5, 1.0]
    ensures ds.Minimum == 0.0 && ds.Maximum == 1.0
  {
    SliceDimension(ds, 0);
    SliceDimension(ds, 1);
    SliceDimension(ds, 2);
    Utils.ThreeEntries(ds.Minimums);
    Utils.ThreeEntries(ds.Maximums);
    SliceExtremes(ds);
  }

  /** The global extremes of the test table. */
  lemma {:induction false} SliceExtremes(ds: DataSet)
    requires Summarizes(ds) && ds.Data == Slice && ds.Dimensions == 3
    ensures ds.Minimum == 0.0 && ds.Maximum == 1.0
  {
    assert forall j, i :: 0 <= j < 2 && 0 <= i < 3 ==> 0.0 <= Slice[j][i] <= 1.0;
    assert ds.Minimum <= Slice[1][0] && Slice[0][0] <= ds.Maximum;
  }

  lemma {:induction false} SliceDimension(ds: DataSet, i: nat)
    requires Summarizes(ds) && ds.Data == Slice && ds.Dimensions == 3 && i < 3
    ensures ds.Minimums[i] == GoMath.Min(Slice[0][i], Slice[1][i])
    ensures ds.Maximums[i] == GoMath.Max(Slice[0][i], Slice[1][i])
  {
    var jl :| 0 <= jl < 2 && Slice[jl][i] == ds.Minimums[i];
    var jh :| 0 <= jh < 2 && Slice[jh][i] == ds.Maximums[i];
    assert ds.Minimums[i] <= Slice[0][i] <= ds.Maximums[i];
    assert ds.Minimums[i] <= Slice[1][i] <= ds.Maximums[i];
  }
}
