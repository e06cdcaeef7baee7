/** The borrowed row view, `RowSlice`.

    A view shares its owner's row width and looks at a row-aligned window of
    a buffer it does not own. Views are never mutated, so a view is modelled
    as an immutable snapshot of its window: narrowing a view cuts a smaller
    window out of it, and nothing is copied that could later diverge. */
module RowSlices {
  import opened RowLayout

  datatype RowSlice<T> = RowSlice(columns: nat, data: seq<T>) {

    /** The window holds whole rows of the non-zero row width. */
    predicate Valid() {
      Aligned(columns, data)
    }

    /** `rows()`: the number of rows the view exposes. */
    function Rows(): (n: nat)
      requires Valid()
      ensures n * columns == |data|
    {
      RowCount(columns, data)
    }

    /** `iter()`: the rows of the view in order; `FlattenChunks` shows that
        together they make up the whole window. */
    function Iter(): (rows: seq<seq<T>>)
      requires Valid()
      ensures |rows| == Rows() && Uniform(columns, rows)
    {
      Chunks(columns, data)
    }

    /** `self[i]`: row `i` of the view, the `i`-th row the iteration yields. */
    function Row(i: nat): (row: seq<T>)
      requires Valid() && i < Rows()
      ensures |row| == columns && row == Iter()[i]
    {
      RowAt(columns, data, i)
    }

    /** `self[(i, col)]`: entry `col` of row `i`. */
    function Cell(i: nat, col: nat): (x: T)
      requires Valid() && col < columns && i < Rows()
      ensures x == Row(i)[col]
    {
      CellOfRow(columns, data, i, col);
      CellAt(columns, data, i, col)
    }

    /** `range(..)`: the view narrowed to the rows `[StartRow(start),
        EndRow(end))`, with the row bounds turned into element offsets by
        multiplying by the row width. An excluded start `i` begins at row
        `i + 1`; an included end `i` stops after row `i`. */
    function Range(start: Bound, end: Bound): (r: RowSlice<T>)
      requires Valid()
      requires StartRow(start) <= EndRow(end, Rows()) <= Rows()
      ensures r.Valid() && r.columns == columns
      ensures StartRow(start) * columns <= EndRow(end, Rows()) * columns <= |data|
      ensures r.data == data[StartRow(start) * columns .. EndRow(end, Rows()) * columns]
      ensures r.Rows() == EndRow(end, Rows()) - StartRow(start)
      ensures forall i :: 0 <= i < r.Rows() ==> r.Row(i) == Row(StartRow(start) + i)
      ensures r.Iter() == Iter()[StartRow(start) .. EndRow(end, Rows())]
    {
      var s, e := StartOffset(start, columns), EndOffset(end, columns, data);
      Window(columns, data, StartRow(start), EndRow(end, Rows()));
      ChunksWindow(columns, data, StartRow(start), EndRow(end, Rows()));
      RowSlice(columns, data[s .. e])
    }

    /** `range_from(start)`: the view from row `start` to its end. */
    function RangeFrom(start: nat): (r: RowSlice<T>)
      requires Valid() && start <= Rows()
      ensures r.Valid() && r.columns == columns
      ensures r.Rows() == Rows() - start
      ensures forall i :: 0 <= i < r.Rows() ==> r.Row(i) == Row(start + i)
    {
      Window(columns, data, start, Rows());
      assert data[start * columns ..] == data[start * columns .. Rows() * columns];
      RowSlice(columns, data[start * columns ..])
    }

    /** `range_to(end)`: the view's first `end` rows. */
    function RangeTo(end: nat): (r: RowSlice<T>)
      requires Valid() && end <= Rows()
      ensures r.Valid() && r.columns == columns
      ensures r.Rows() == end
      ensures forall i :: 0 <= i < r.Rows() ==> r.Row(i) == Row(i)
    {
      Window(columns, data, 0, end);
      RowSlice(columns, data[.. end * columns])
    }
  }

  /** Two valid views with the same row width and the same rows are the same
      view. */
  lemma {:induction false} SameRows<T>(s: RowSlice<T>, t: RowSlice<T>)
    requires s.Valid() && t.Valid() && s.columns == t.columns
    requires s.Iter() == t.Iter()
    ensures s == t
  {
    ChunksInjective(s.columns, s.data, t.data);
  }

  /** Every pair of bounds selects the same view as its half-open form
      `[StartRow(start), EndRow(end))`: an excluded start `i` is an included
      start `i + 1`, an included end `i` an excluded end `i + 1`, and an
      unbounded side the view's own edge. */
  lemma {:induction false} RangeHalfOpen<T>(s: RowSlice<T>, start: Bound, end: Bound)
    requires s.Valid()
    requires StartRow(start) <= EndRow(end, s.Rows()) <= s.Rows()
    ensures s.Range(start, end)
         == s.Range(Included(StartRow(start)), Excluded(EndRow(end, s.Rows())))
  {
    SameRows(s.Range(start, end),
             s.Range(Included(StartRow(start)), Excluded(EndRow(end, s.Rows()))));
  }

  /** `range_from(k)` is `range(k..)`. */
  lemma {:induction false} RangeFromIsRange<T>(s: RowSlice<T>, k: nat)
    requires s.Valid() && k <= s.Rows()
    ensures s.RangeFrom(k) == s.Range(Included(k), Unbounded)
  {
    MulLe(k, s.Rows(), s.columns);
    assert s.data[k * s.columns ..] == s.data[k * s.columns .. |s.data|];
  }

  /** `range_to(k)` is `range(..k)`. */
  lemma {:induction false} RangeToIsRange<T>(s: RowSlice<T>, k: nat)
    requires s.Valid() && k <= s.Rows()
    ensures s.RangeTo(k) == s.Range(Unbounded, Excluded(k))
  {
    MulLe(k, s.Rows(), s.columns);
    assert s.data[.. k * s.columns] == s.data[0 .. k * s.columns];
  }

  /** Narrowing a narrowed view adds the offsets: rows `[lo2, hi2)` of rows
      `[lo1, hi1)` are rows `[lo1 + lo2, lo1 + hi2)`. */
  lemma {:induction false} RangeCompose<T>(s: RowSlice<T>, lo1: nat, hi1: nat, lo2: nat, hi2: nat)
    requires s.Valid() && lo1 <= hi1 <= s.Rows() && lo2 <= hi2 <= hi1 - lo1
    ensures s.Range(Included(lo1), Excluded(hi1)).Range(Included(lo2), Excluded(hi2))
         == s.Range(Included(lo1 + lo2), Excluded(lo1 + hi2))
  {
    var c := s.columns;
    var inner := s.Range(Included(lo1), Excluded(hi1));
    var twice := inner.Range(Included(lo2), Excluded(hi2));
    var once := s.Range(Included(lo1 + lo2), Excluded(lo1 + hi2));
    assert inner.data == s.data[lo1 * c .. hi1 * c];
    assert twice.data == inner.data[lo2 * c .. hi2 * c];
    assert once.data == s.data[(lo1 + lo2) * c .. (lo1 + hi2) * c];
    MulAdd(lo1, lo2, c);
    MulAdd(lo1, hi2, c);
    assert twice.data == once.data;
  }
}
