/**
 * matrix.go: a table of rows with per-column and global minimum and
 * maximum, skipping missing values, and a flag telling whether any value
 * is missing. A missing value (NaN in the float table) is a Missing cell.
 */
module Matrices {
  import Floats
  import GoMath
  import Utils

  datatype Cell = Num(value: real) | Missing

  datatype Matrix = Matrix(
    Data: seq<seq<Cell>>,
    Rows: int,
    Columns: int,
    Minimums: seq<real>,
    Maximums: seq<real>,
    Minimum: real,
    Maximum: real,
    NaNs: bool)
  {
    /** Column col of every row. Go's slice has Rows entries, so rows
        beyond the data stay at the zero value. */
    method Column(col: int) returns (out: seq<Cell>)
      requires |Data| <= Rows
      requires 0 <= col && WideEnough(Data, col + 1)
      ensures |out| == Rows
      ensures forall i :: 0 <= i < |Data| ==> out[i] == Data[i][col]
      ensures forall i :: |Data| <= i < Rows ==> out[i] == Num(0.0)
    {
      out := seq(Rows, _ => Num(0.0));
      for i := 0 to |Data|
        invariant |out| == Rows
        invariant forall k :: 0 <= k < i ==> out[k] == Data[k][col]
        invariant forall k :: i <= k < Rows ==> out[k] == Num(0.0)
      {
        out := out[i := Data[i][col]];
      }
    }

    /** The row chosen by the caller's random index. */
    function RandomRow(pick: int): (row: seq<Cell>)
      requires 0 <= pick < Rows && pick < |Data|
      ensures row in Data
    {
      Data[pick]
    }

    method SubMatrix(start: int, length: int) returns (sm: Matrix)
      requires Rows == |Data| && 0 < Rows
      requires 0 <= start && 0 < length && WideEnough(Data, start + length)
      requires forall c :: start <= c < start + length ==> HasNumber(Data, c)
      ensures sm.Data == SubRows(Data, start, length)
      ensures sm.Rows == Rows && sm.Columns == length
      ensures Consistent(sm)
    {
      var values: seq<seq<Cell>> := [];
      for i := 0 to |Data|
        invariant |values| == i
        invariant forall k :: 0 <= k < i ==> values[k] == Data[k][start..start + length]
      {
        values := values + [Data[i][start..start + length]];
      }
      assert values == SubRows(Data, start, length);
      forall c | 0 <= c < length
        ensures HasNumber(values, c)
      {
        assert HasNumber(Data, c + start);
        var r :| 0 <= r < |Data| && 0 <= c + start < |Data[r]| && Data[r][c + start].Num?;
        assert values[r][c] == Data[r][c + start];
      }
      sm := NewMatrix(values);
    }
  }

  /** Columns start to start + length of every row. */
  function SubRows(data: seq<seq<Cell>>, start: int, length: int): (rows: seq<seq<Cell>>)
    requires 0 <= start && 0 <= length && WideEnough(data, start + length)
    ensures |rows| == |data|
    ensures forall i :: 0 <= i < |data| ==> |rows[i]| == length && rows[i] == data[i][start..start + length]
  {
    seq(|data|, i requires 0 <= i < |data| => data[i][start..start + length])
  }

  /** The two sub-matrices of matrix_test.go. */
  lemma {:induction false} SubRowsExamples()
    ensures SubRows(Slice, 0, 2) == [[Num(1.0), Num(0.5)], [Num(0.0), Num(0.5)]]
    ensures SubRows(Slice, 2, 1) == [[Num(0.0)], [Num(1.0)]]
  {
    assert Slice[0][0..2] == [Num(1.0), Num(0.5)] && Slice[1][0..2] == [Num(0.0), Num(0.5)];
    assert Slice[0][2..3] == [Num(0.0)] && Slice[1][2..3] == [Num(1.0)];
  }

  /** Every row has at least columns entries. */
  predicate WideEnough(data: seq<seq<Cell>>, columns: int)
  {
    forall r :: 0 <= r < |data| ==> columns <= |data[r]|
  }

  /** Column c holds at least one value. */
  ghost predicate HasNumber(data: seq<seq<Cell>>, c: int)
  {
    exists r :: 0 <= r < |data| && 0 <= c < |data[r]| && data[r][c].Num?
  }

  /** v is the least value of column c. */
  ghost predicate Least(data: seq<seq<Cell>>, c: int, v: real)
  {
    && (forall r :: 0 <= r < |data| && 0 <= c < |data[r]| && data[r][c].Num? ==> v <= data[r][c].value)
    && (exists r :: 0 <= r < |data| && 0 <= c < |data[r]| && data[r][c] == Num(v))
  }

  /** v is the greatest value of column c. */
  ghost predicate Greatest(data: seq<seq<Cell>>, c: int, v: real)
  {
    && (forall r :: 0 <= r < |data| && 0 <= c < |data[r]| && data[r][c].Num? ==> data[r][c].value <= v)
    && (exists r :: 0 <= r < |data| && 0 <= c < |data[r]| && data[r][c] == Num(v))
  }

  /** The first n entries of minimums and maximums are the statistics of
      their columns. */
  ghost predicate StatsUpTo(data: seq<seq<Cell>>, minimums: seq<real>, maximums: seq<real>, n: int)
  {
    && n <= |minimums| && n <= |maximums|
    && (forall c :: 0 <= c < n ==> Least(data, c, minimums[c]) && Greatest(data, c, maximums[c]))
  }

  /** Some cell of the first n columns is missing. */
  ghost predicate MissingBefore(data: seq<seq<Cell>>, n: int)
  {
    exists r, c :: 0 <= r < |data| && 0 <= c < n && c < |data[r]| && data[r][c] == Missing
  }

  /** The statistics of a matrix agree with its data. */
  ghost predicate Consistent(m: Matrix)
  {
    && m.Rows == |m.Data|
    && 0 <= m.Columns && WideEnough(m.Data, m.Columns)
    && |m.Minimums| == m.Columns && |m.Maximums| == m.Columns
    && StatsUpTo(m.Data, m.Minimums, m.Maximums, m.Columns)
    && (m.NaNs <==> MissingBefore(m.Data, m.Columns))
    && (0 < m.Columns ==> m.Minimum == Floats.Min(m.Minimums) && m.Maximum == Floats.Max(m.Maximums))
  }

  lemma {:induction false} ExtendStats(data: seq<seq<Cell>>, minimums: seq<real>, maximums: seq<real>, n: nat, lo: real, hi: real)
    requires StatsUpTo(data, minimums, maximums, n) && n < |minimums| && n < |maximums|
    requires Least(data, n, lo) && Greatest(data, n, hi)
    ensures StatsUpTo(data, minimums[n := lo], maximums[n := hi], n + 1)
  {
  }

  lemma {:induction false} ExtendMissing(data: seq<seq<Cell>>, n: nat, col: seq<Cell>)
    requires WideEnough(data, n + 1)
    requires |col| == |data| && forall i :: 0 <= i < |data| ==> col[i] == data[i][n]
    ensures MissingBefore(data, n + 1) <==> MissingBefore(data, n) || Missing in col
  {
    if Missing in col {
      var r :| 0 <= r < |col| && col[r] == Missing;
      assert data[r][n] == Missing;
    }
    if MissingBefore(data, n + 1) {
      var r, c :| 0 <= r < |data| && 0 <= c < n + 1 && c < |data[r]| && data[r][c] == Missing;
      if c == n {
        assert col[r] == Missing;
      }
    }
  }

  /** clearNANs: the values of a column in order, without the missing ones. */
  function ClearNaNs(col: seq<Cell>): (r: seq<real>)
    ensures |r| <= |col|
    ensures forall x :: x in r <==> Num(x) in col
  {
    if |col| == 0 then []
    else
      var last := match col[|col| - 1] case Num(v) => [v] case Missing => [];
      assert col == col[..|col| - 1] + [col[|col| - 1]];
      ClearNaNs(col[..|col| - 1]) + last
  }

  /** The least and greatest value of a column with a value are its
      statistics. */
  lemma {:induction false} ColumnStats(col: seq<Cell>, data: seq<seq<Cell>>, c: int)
    requires 0 <= c && WideEnough(data, c + 1) && HasNumber(data, c)
    requires |col| == |data| && forall i :: 0 <= i < |data| ==> col[i] == data[i][c]
    ensures |ClearNaNs(col)| > 0
    ensures Least(data, c, Floats.Min(ClearNaNs(col)))
    ensures Greatest(data, c, Floats.Max(ClearNaNs(col)))
  {
    var r :| 0 <= r < |data| && c < |data[r]| && data[r][c].Num?;
    assert col[r] == Num(data[r][c].value);
    assert data[r][c].value in ClearNaNs(col);
    var cleared := ClearNaNs(col);
    var lo, hi := Floats.Min(cleared), Floats.Max(cleared);
    assert Num(lo) in col && Num(hi) in col;
    forall k | 0 <= k < |data| && c < |data[k]| && data[k][c].Num?
      ensures lo <= data[k][c].value <= hi
    {
      assert col[k] == Num(data[k][c].value);
      var x := data[k][c].value;
      assert x in cleared;
      var i :| 0 <= i < |cleared| && cleared[i] == x;
    }
    var rl :| 0 <= rl < |col| && col[rl] == Num(lo);
    var rh :| 0 <= rh < |col| && col[rh] == Num(hi);
    assert data[rl][c] == Num(lo) && data[rh][c] == Num(hi);
  }

  method NewMatrix(data: seq<seq<Cell>>) returns (m: Matrix)
    requires 0 < |data| && 0 < |data[0]| && WideEnough(data, |data[0]|)
    requires forall c :: 0 <= c < |data[0]| ==> HasNumber(data, c)
    ensures m.Data == data && m.Rows == |data| && m.Columns == |data[0]|
    ensures Consistent(m)
  {
    var columns := |data[0]|;
    m := Matrix(data, |data|, columns, [], [], 0.0, 0.0, false);
    var minimums := seq(columns, _ => 0.0);
    var maximums := seq(columns, _ => 0.0);
    var nans := false;
    for i := 0 to columns
      invariant |minimums| == columns && |maximums| == columns
      invariant StatsUpTo(data, minimums, maximums, i)
      invariant nans <==> MissingBefore(data, i)
    {
      var rawColumn := m.Column(i);
      var clearedColumn := ClearNaNs(rawColumn);
      ColumnStats(rawColumn, data, i);
      ExtendStats(data, minimums, maximums, i, Floats.Min(clearedColumn), Floats.Max(clearedColumn));
      ExtendMissing(data, i, rawColumn);
      minimums := minimums[i := Floats.Min(clearedColumn)];
      maximums := maximums[i := Floats.Max(clearedColumn)];
      if Missing in rawColumn {
        nans := true;
      }
    }
    m := m.(Minimums := minimums, Maximums := maximums,
            Minimum := Floats.Min(minimums), Maximum := Floats.Max(maximums), NaNs := nans);
  }

  /** The global Minimum and Maximum bound every value of the first Columns
      columns and are values of the table. */
  lemma {:induction false} GlobalBounds(m: Matrix)
    requires Consistent(m) && 0 < m.Columns
    ensures forall r, c :: 0 <= r < |m.Data| && 0 <= c < m.Columns && m.Data[r][c].Num? ==>
              m.Minimum <= m.Data[r][c].value <= m.Maximum
    ensures exists r, c :: 0 <= r < |m.Data| && 0 <= c < m.Columns && m.Data[r][c] == Num(m.Minimum)
    ensures exists r, c :: 0 <= r < |m.Data| && 0 <= c < m.Columns && m.Data[r][c] == Num(m.Maximum)
  {
    GlobalBoundsHold(m);
    GlobalMinimumAttained(m);
    GlobalMaximumAttained(m);
  }

  lemma {:induction false} GlobalBoundsHold(m: Matrix)
    requires Consistent(m) && 0 < m.Columns
    ensures forall r, c :: 0 <= r < |m.Data| && 0 <= c < m.Columns && m.Data[r][c].Num? ==>
              m.Minimum <= m.Data[r][c].value <= m.Maximum
  {
    var data: seq<seq<Cell>> := m.Data;
    forall r, c | 0 <= r < |data| && 0 <= c < m.Columns && data[r][c].Num?
      ensures m.Minimum <= data[r][c].value <= m.Maximum
    {
      assert Least(data, c, m.Minimums[c]) && Greatest(data, c, m.Maximums[c]);
    }
  }

  lemma {:induction false} GlobalMinimumAttained(m: Matrix)
    requires Consistent(m) && 0 < m.Columns
    ensures exists r, c :: 0 <= r < |m.Data| && 0 <= c < m.Columns && m.Data[r][c] == Num(m.Minimum)
  {
    var cl :| 0 <= cl < m.Columns && m.Minimums[cl] == m.Minimum;
    assert Least(m.Data, cl, m.Minimum);
    var rl :| 0 <= rl < |m.Data| && 0 <= cl < |m.Data[rl]| && m.Data[rl][cl] == Num(m.Minimum);
  }

  lemma {:induction false} GlobalMaximumAttained(m: Matrix)
    requires Consistent(m) && 0 < m.Columns
    ensures exists r, c :: 0 <= r < |m.Data| && 0 <= c < m.Columns && m.Data[r][c] == Num(m.Maximum)
  {
    var ch :| 0 <= ch < m.Columns && m.Maximums[ch] == m.Maximum;
    assert Greatest(m.Data, ch, m.Maximum);
    var rh :| 0 <= rh < |m.Data| && 0 <= ch < |m.Data[rh]| && m.Data[rh][ch] == Num(m.Maximum);
  }

  /** The table used by matrix_test.go. */
  const Slice: seq<seq<Cell>> := [[Num(1.0), Num(0.5), Num(0.0)], [Num(0.0), Num(0.5), Num(1.0)]]

  /** The same table with two values missing. */
  const SliceNaN: seq<seq<Cell>> := [[Num(1.0), Num(0.5), Missing], [Missing, Num(0.5), Num(1.0)]]

  /** Consistency alone fixes the statistics matrix_test.go expects. */
  lemma {:induction false} SliceStatistics(m: Matrix)
    requires Consistent(m) && m.Data == Slice && m.Columns == 3
    ensures m.Rows == 2
    ensures m.Minimums == [0.0, 0.5, 0.0] && m.Maximums == [1.0, 0.5, 1.0]
    ensures m.Minimum == 0.0 && m.Maximum == 1.0 && !m.NaNs
  {
    SliceColumns(m.Minimums, m.Maximums);
    MinMaxOfThree(0.0, 0.5, 0.0);
    MinMaxOfThree(1.0, 0.5, 1.0);
    NothingMissingInSlice();
  }

  lemma {:induction false} NothingMissingInSlice()
    ensures !MissingBefore(Slice, 3)
  {
    forall r, c | 0 <= r < |Slice| && 0 <= c < 3 && c < |Slice[r]|
      ensures Slice[r][c] != Missing
    {
      assert Slice[r] == [Num(1.0), Num(0.5), Num(0.0)] || Slice[r] == [Num(0.0), Num(0.5), Num(1.0)];
    }
  }

  lemma {:induction false} SliceColumns(minimums: seq<real>, maximums: seq<real>)
    requires |minimums| == 3 && |maximums| == 3
    requires StatsUpTo(Slice, minimums, maximums, 3)
    ensures minimums == [0.0, 0.5, 0.0] && maximums == [1.0, 0.5, 1.0]
  {
    TwoRowColumn(Slice, 0, minimums[0], maximums[0]);
    TwoRowColumn(Slice, 1, minimums[1], maximums[1]);
    TwoRowColumn(Slice, 2, minimums[2], maximums[2]);
    Utils.ThreeEntries(minimums);
    Utils.ThreeEntries(maximums);
  }

  /** The table with missing values: the remaining value of each column is
      both its minimum and its maximum, and the flag is set. */
  lemma {:induction false} SliceNaNStatistics(m: Matrix)
    requires Consistent(m) && m.Data == SliceNaN && m.Columns == 3
    ensures m.Rows == 2
    ensures m.Minimums == [1.0, 0.5, 1.0] && m.Maximums == [1.0, 0.5, 1.0]
    ensures m.Minimum == 0.5 && m.Maximum == 1.0 && m.NaNs
  {
    SliceNaNColumns(m.Minimums, m.Maximums);
    MinMaxOfThree(1.0, 0.5, 1.0);
    assert SliceNaN[0][2] == Missing;
    assert MissingBefore(SliceNaN, 3);
  }

  lemma {:induction false} SliceNaNColumns(minimums: seq<real>, maximums: seq<real>)
    requires |minimums| == 3 && |maximums| == 3
    requires StatsUpTo(SliceNaN, minimums, maximums, 3)
    ensures minimums == [1.0, 0.5, 1.0] && maximums == [1.0, 0.5, 1.0]
  {
    TwoRowColumn(SliceNaN, 0, minimums[0], maximums[0]);
    TwoRowColumn(SliceNaN, 1, minimums[1], maximums[1]);
    TwoRowColumn(SliceNaN, 2, minimums[2], maximums[2]);
    Utils.ThreeEntries(minimums);
    Utils.ThreeEntries(maximums);
  }

  lemma {:induction false} MinMaxOfThree(a: real, b: real, c: real)
    ensures Floats.Min([a, b, c]) == GoMath.Min(GoMath.Min(a, b), c)
    ensures Floats.Max([a, b, c]) == GoMath.Max(GoMath.Max(a, b), c)
  {
    assert [a, b, c][..2] == [a, b];
    assert [a, b][..1] == [a];
  }

  /** The statistics of one column of a two-row table. */
  lemma {:induction false} TwoRowColumn(data: seq<seq<Cell>>, c: nat, lo: real, hi: real)
    requires |data| == 2 && c < |data[0]| && c < |data[1]|
    requires Least(data, c, lo) && Greatest(data, c, hi)
    ensures data[0][c].Num? ==> lo <= data[0][c].value <= hi
    ensures data[1][c].Num? ==> lo <= data[1][c].value <= hi
    ensures data[0][c] == Num(lo) || data[1][c] == Num(lo)
    ensures data[0][c] == Num(hi) || data[1][c] == Num(hi)
  {
    var rl :| 0 <= rl < |data| && c < |data[rl]| && data[rl][c] == Num(lo);
    var rh :| 0 <= rh < |data| && c < |data[rh]| && data[rh][c] == Num(hi);
  }
}
