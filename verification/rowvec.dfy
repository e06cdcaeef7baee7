/** The owned row store, `RowVec`.

    A row-major matrix of a fixed, non-zero row width over one flat buffer.
    Every mutator is a pure function from the old store to the new one, and
    its contract states the new rows in terms of the old: the buffer is only
    ever changed in whole rows, so it always holds a whole number of rows.

    The readers `Valid`, `Rows`, `Iter`, `Row`, `Cell` and the lemma
    `SameRows` mirror those of `RowSlice` on purpose: the source implements
    them twice, once on each type (src/lib.rs:36-54 and 95-121 for the
    store, 151-159 and 197-215 for the view). */
module RowVecs {
  import opened RowLayout
  import opened RowSlices

  datatype RowVec<T> = RowVec(columns: nat, data: seq<T>) {

    /** The store's invariant: a non-zero row width dividing the buffer. */
    predicate Valid() {
      Aligned(columns, data)
    }

    /** `rows()`: the number of rows, the buffer length over the row width. */
    function Rows(): (n: nat)
      requires Valid()
      ensures n * columns == |data|
    {
      RowCount(columns, data)
    }

    /** `iter()`: the rows in order; `FlattenChunks` shows that together
        they make up the buffer. */
    function Iter(): (rows: seq<seq<T>>)
      requires Valid()
      ensures |rows| == Rows() && Uniform(columns, rows)
    {
      Chunks(columns, data)
    }

    /** `self[i]`: row `i`, the `i`-th row the iteration yields. */
    function Row(i: nat): (row: seq<T>)
      requires Valid() && i < Rows()
      ensures |row| == columns && row == Iter()[i]
    {
      RowAt(columns, data, i)
    }

    /** `self[(i, col)]`: entry `col` of row `i`. */
    function Cell(i: nat, col: nat): (x: T)
      requires Valid() && col < columns && i < Rows()
      ensures x == Row(i)[col]
    {
      CellOfRow(columns, data, i, col);
      CellAt(columns, data, i, col)
    }

    /** `push(value)`: one more row, `value`, after the existing ones. */
    function Push(value: seq<T>): (r: RowVec<T>)
      requires Valid() && |value| == columns
      ensures r.Valid() && r.columns == columns
      ensures r.Iter() == Iter() + [value]
    {
      SingleRow(columns, value);
      ChunksConcat(columns, data, value);
      RowVec(columns, data + value)
    }

    /** `append(other)`: other's rows move after this store's rows; `other`
        is left with no rows and its row width. The result pairs the new
        store with the drained `other`. */
    function Append(other: RowVec<T>): (r: (RowVec<T>, RowVec<T>))
      requires Valid() && other.Valid() && columns == other.columns
      ensures r.0.Valid() && r.0.columns == columns
      ensures r.0.Iter() == Iter() + other.Iter()
      ensures r.1.Valid() && r.1.columns == other.columns && r.1.Rows() == 0
    {
      ChunksConcat(columns, data, other.data);
      (RowVec(columns, data + other.data), RowVec(other.columns, []))
    }

    /** `clear()`: no rows, same row width. */
    function Clear(): (r: RowVec<T>)
      requires Valid()
      ensures r.Valid() && r.columns == columns && r.Rows() == 0
    {
      RowVec(columns, [])
    }

    /** `remove_range(..)`: drops the rows `[StartRow(start), EndRow(end))`
        and closes the gap. The row bounds become element offsets by
        multiplying by the row width; an excluded start bound is not
        supported. */
    function RemoveRange(start: Bound, end: Bound): (r: RowVec<T>)
      requires Valid() && !start.Excluded?
      requires StartRow(start) <= EndRow(end, Rows()) <= Rows()
      ensures r.Valid() && r.columns == columns
      ensures r.Iter() == Iter()[.. StartRow(start)] + Iter()[EndRow(end, Rows()) ..]
    {
      DrainOffsets(columns, data, start, end);
      var s, e := StartOffset(start, columns), EndOffset(end, columns, data);
      RowVec(columns, data[.. s] + data[e ..])
    }

    /** `swap_nonoverlapping(a, b)`: rows `a` and `b` trade places and every
        other row stays where it is. As in the source, the buffer is split
        at the later row and the earlier row is exchanged with the first row
        of the right part. */
    function SwapNonoverlapping(a: nat, b: nat): (r: RowVec<T>)
      requires Valid() && a != b && a < Rows() && b < Rows()
      ensures r.Valid() && r.columns == columns
      ensures r.Iter() == Iter()[a := Row(b)][b := Row(a)]
    {
      var lo := if a < b then a else b;
      var hi := if a < b then b else a;
      assert Iter()[a := Row(b)][b := Row(a)] == Iter()[lo := Row(hi)][hi := Row(lo)];
      RowVec(columns, SplitSwap(columns, data, lo, hi))
    }

    /** `self[i] = row` through `IndexMut<usize>`: row `i` is overwritten
        with a row of the same width, and no other row changes. */
    function WriteRow(i: nat, row: seq<T>): (r: RowVec<T>)
      requires Valid() && i < Rows() && |row| == columns
      ensures r.Valid() && r.columns == columns
      ensures r.Iter() == Iter()[i := row]
    {
      ReplaceRowChunks(columns, data, i, row);
      RowVec(columns, ReplaceRow(columns, data, i, row))
    }

    /** `self[(i, col)] = x` through `IndexMut<(usize, usize)>`: entry `col`
        of row `i` becomes `x`, and nothing else changes. */
    function WriteCell(i: nat, col: nat, x: T): (r: RowVec<T>)
      requires Valid() && col < columns && i < Rows()
      ensures r.Valid() && r.columns == columns
      ensures r.Iter() == Iter()[i := Row(i)[col := x]]
    {
      WriteCellIsWriteRow(this, i, col, x);
      RowVec(columns, data[columns * i + col := x])
    }

    /** `iter_mut()` with `f` applied to each row: row `i` becomes
        `f(i, row i)`. The traversal can rewrite a row's entries but cannot
        change its length, so `f` must keep the row width. */
    method IterMut(f: (nat, seq<T>) -> seq<T>) returns (r: RowVec<T>)
      requires Valid()
      requires forall i :: 0 <= i < Rows() ==> |f(i, Row(i))| == columns
      ensures r.Valid() && r.columns == columns && r.Rows() == Rows()
      ensures forall i :: 0 <= i < Rows() ==> r.Row(i) == f(i, Row(i))
    {
      var out: seq<T> := [];
      var k := 0;
      MulMod(0, columns);
      while k < Rows()
        invariant k <= Rows()
        invariant Aligned(columns, out) && RowCount(columns, out) == k
        invariant forall i :: 0 <= i < k ==> RowAt(columns, out, i) == f(i, Row(i))
      {
        var next := f(k, Row(k));
        SingleRow(columns, next);
        ConcatRows(columns, out, next);
        out := out + next;
        k := k + 1;
      }
      r := RowVec(columns, out);
    }

    /** `slice()`: a view of every row, with the store's row width. */
    function Slice(): (s: RowSlice<T>)
      requires Valid()
      ensures s.Valid() && s.columns == columns
      ensures s.Rows() == Rows() && s.Iter() == Iter()
    {
      RowSlice(columns, data)
    }
  }

  /** `new(columns)`: an empty store of the given non-zero row width. */
  function New<T>(columns: nat): (r: RowVec<T>)
    requires columns != 0
    ensures r.Valid() && r.columns == columns && r.Rows() == 0
  {
    RowVec(columns, [])
  }

  /** `with_capacity(columns, capacity)`: like `new`; the capacity is only an
      allocation hint and leaves no trace in the contents. */
  function WithCapacity<T>(columns: nat, capacity: nat): (r: RowVec<T>)
    requires columns != 0
    ensures r.Valid() && r.columns == columns && r.Rows() == 0
  {
    RowVec(columns, [])
  }

  /** Rows `lo < hi` exchanged as `swap_nonoverlapping` does it: the buffer
      is split at row `hi`, and the `c` elements of row `lo` in the left part
      trade places with the first `c` elements of the right part. */
  function SplitSwap<T>(c: nat, data: seq<T>, lo: nat, hi: nat): (r: seq<T>)
    requires Aligned(c, data) && lo < hi < RowCount(c, data)
    ensures Aligned(c, r)
    ensures Chunks(c, r) == Chunks(c, data)[lo := RowAt(c, data, hi)][hi := RowAt(c, data, lo)]
  {
    SplitSwapIsTwoWrites(c, data, lo, hi);
    var once := ReplaceRow(c, data, lo, RowAt(c, data, hi));
    ReplaceRowChunks(c, data, lo, RowAt(c, data, hi));
    ReplaceRowChunks(c, once, hi, RowAt(c, data, lo));
    var il, ir := lo * c, hi * c;
    var left, right := data[.. ir], data[ir ..];
    left[.. il] + right[.. c] + left[il + c ..] + (left[il .. il + c] + right[c ..])
  }

  /** Trading row `lo` of the left part for the first row of the right part
      writes row `hi` over row `lo` and row `lo` over row `hi`. */
  lemma {:induction false} SplitSwapIsTwoWrites<T>(c: nat, data: seq<T>, lo: nat, hi: nat)
    requires Aligned(c, data) && lo < hi < RowCount(c, data)
    ensures hi * c + c <= |data| && lo * c + c <= hi * c
    ensures var left, right := data[.. hi * c], data[hi * c ..];
            left[.. lo * c] + right[.. c] + left[lo * c + c ..]
              + (left[lo * c .. lo * c + c] + right[c ..])
            == ReplaceRow(c, ReplaceRow(c, data, lo, RowAt(c, data, hi)), hi, RowAt(c, data, lo))
  {
    RowEnd(lo, hi, c);
    RowEnd(hi, RowCount(c, data), c);
    var x, y := RowAt(c, data, hi), RowAt(c, data, lo);
    assert x == data[hi * c .. hi * c + c] && y == data[lo * c .. lo * c + c];
    SplitPieces(data, lo * c, hi * c, c);
    TwoWritePieces(c, data, lo, hi, x, y);
  }

  /** The split-and-trade expression, as five consecutive pieces. */
  lemma {:induction false} SplitPieces<T>(data: seq<T>, il: nat, ir: nat, c: nat)
    requires il + c <= ir && ir + c <= |data|
    ensures var left, right := data[.. ir], data[ir ..];
            left[.. il] + right[.. c] + left[il + c ..] + (left[il .. il + c] + right[c ..])
            == data[.. il] + data[ir .. ir + c] + data[il + c .. ir] + data[il .. il + c] + data[ir + c ..]
  {
    var left, right := data[.. ir], data[ir ..];
    assert left[.. il] == data[.. il] && right[.. c] == data[ir .. ir + c];
    assert left[il + c ..] == data[il + c .. ir];
    assert left[il .. il + c] == data[il .. il + c] && right[c ..] == data[ir + c ..];
  }

  /** Writing `x` over row `lo` and then `y` over the later row `hi` puts
      the two rows in place and leaves the rest of the buffer alone. */
  lemma {:induction false} TwoWritePieces<T>(c: nat, data: seq<T>, lo: nat, hi: nat, x: seq<T>, y: seq<T>)
    requires Aligned(c, data) && lo < hi < RowCount(c, data) && |x| == c && |y| == c
    ensures lo * c + c <= hi * c && hi * c + c <= |data|
    ensures ReplaceRow(c, ReplaceRow(c, data, lo, x), hi, y)
         == data[.. lo * c] + x + data[lo * c + c .. hi * c] + y + data[hi * c + c ..]
  {
    RowEnd(lo, hi, c);
    RowEnd(hi, RowCount(c, data), c);
    var once := ReplaceRow(c, data, lo, x);
    ReplaceRowSplice(c, data, lo, x);
    ReplaceRowSplice(c, once, hi, y);
    SpliceTwice(data, lo * c, hi * c, x, y);
  }

  /** Putting `x` over the piece at `il`, then `y` over the piece at `ir`,
      leaves everything between and around them alone. */
  lemma {:induction false} SpliceTwice<T>(data: seq<T>, il: nat, ir: nat, x: seq<T>, y: seq<T>)
    requires |x| == |y| && il + |x| <= ir && ir + |x| <= |data|
    ensures var once := data[.. il] + x + data[il + |x| ..];
            |once| == |data| &&
            once[.. ir] + y + once[ir + |x| ..]
            == data[.. il] + x + data[il + |x| .. ir] + y + data[ir + |x| ..]
  {
    var once := data[.. il] + x + data[il + |x| ..];
    assert once[.. ir] == data[.. il] + x + data[il + |x| .. ir];
    assert once[ir + |x| ..] == data[ir + |x| ..];
  }

  /** Removing by the element offsets of the bounds drains exactly the
      rows the bounds name. */
  lemma {:induction false} DrainOffsets<T>(c: nat, data: seq<T>, start: Bound, end: Bound)
    requires Aligned(c, data)
    requires StartRow(start) <= EndRow(end, RowCount(c, data)) <= RowCount(c, data)
    ensures StartOffset(start, c) <= EndOffset(end, c, data) <= |data|
    ensures data[.. StartOffset(start, c)] + data[EndOffset(end, c, data) ..]
         == DrainRows(c, data, StartRow(start), EndRow(end, RowCount(c, data)))
  {
    var n := RowCount(c, data);
    MulLe(StartRow(start), EndRow(end, n), c);
    MulLe(EndRow(end, n), n, c);
  }

  /** Writing one cell is writing its row with that one entry replaced. */
  lemma {:induction false} WriteCellIsWriteRow<T>(v: RowVec<T>, i: nat, col: nat, x: T)
    requires v.Valid() && col < v.columns && i < v.Rows()
    ensures v.columns * i + col < |v.data|
    ensures RowVec(v.columns, v.data[v.columns * i + col := x])
         == v.WriteRow(i, v.Row(i)[col := x])
  {
    var c := v.columns;
    ReplaceRowSplice(c, v.data, i, v.Row(i)[col := x]);
    CellInBounds(c, v.data, i, col);
    RowEnd(i, v.Rows(), c);
    assert c * i == i * c;
    assert v.data[c * i + col := x] == v.data[.. i * c] + v.Row(i)[col := x] + v.data[i * c + c ..];
  }

  // ---------------------------------------------------------------------
  // What the mutators do to individual rows and cells.

  /** Two valid stores with the same row width and the same rows are the
      same store. */
  lemma {:induction false} SameRows<T>(v: RowVec<T>, w: RowVec<T>)
    requires v.Valid() && w.Valid() && v.columns == w.columns
    requires v.Iter() == w.Iter()
    ensures v == w
  {
    ChunksInjective(v.columns, v.data, w.data);
  }

  /** After `push(value)` there is one more row, it reads back as `value`,
      and every earlier row is unchanged. */
  lemma {:induction false} PushReadBack<T>(v: RowVec<T>, value: seq<T>)
    requires v.Valid() && |value| == v.columns
    ensures v.Push(value).Rows() == v.Rows() + 1
    ensures v.Push(value).Row(v.Rows()) == value
    ensures forall i :: 0 <= i < v.Rows() ==> v.Push(value).Row(i) == v.Row(i)
  {
  }

  /** `append` adds other's row count, and rows keep their order: this
      store's rows first, then other's. */
  lemma {:induction false} AppendRows<T>(v: RowVec<T>, other: RowVec<T>)
    requires v.Valid() && other.Valid() && v.columns == other.columns
    ensures v.Append(other).0.Rows() == v.Rows() + other.Rows()
    ensures forall i :: 0 <= i < v.Rows() ==> v.Append(other).0.Row(i) == v.Row(i)
    ensures forall i :: 0 <= i < other.Rows() ==>
              v.Append(other).0.Row(v.Rows() + i) == other.Row(i)
  {
  }

  /** `remove_range` over rows `[lo, hi)` leaves `hi - lo` fewer rows; rows
      before `lo` stay, and the rows from `hi` on move down by `hi - lo`
      in their original order. */
  lemma {:induction false} RemoveRangeShifts<T>(v: RowVec<T>, start: Bound, end: Bound)
    requires v.Valid() && !start.Excluded?
    requires StartRow(start) <= EndRow(end, v.Rows()) <= v.Rows()
    ensures var lo, hi := StartRow(start), EndRow(end, v.Rows());
            && v.RemoveRange(start, end).Rows() == v.Rows() - (hi - lo)
            && (forall i :: 0 <= i < lo ==> v.RemoveRange(start, end).Row(i) == v.Row(i))
            && (forall i :: lo <= i < v.Rows() - (hi - lo) ==>
                  v.RemoveRange(start, end).Row(i) == v.Row(i + (hi - lo)))
  {
    var lo, hi := StartRow(start), EndRow(end, v.Rows());
    GapClosed(v, v.RemoveRange(start, end), lo, hi);
  }

  /** A store whose rows are those of `v` without `[lo, hi)`: rows before
      `lo` keep their index and later rows move down by `hi - lo`. */
  lemma {:induction false} GapClosed<T>(v: RowVec<T>, r: RowVec<T>, lo: nat, hi: nat)
    requires v.Valid() && r.Valid() && lo <= hi <= v.Rows()
    requires r.Iter() == v.Iter()[.. lo] + v.Iter()[hi ..]
    ensures r.Rows() == v.Rows() - (hi - lo)
    ensures forall i :: 0 <= i < lo ==> r.Row(i) == v.Row(i)
    ensures forall i :: lo <= i < r.Rows() ==> r.Row(i) == v.Row(i + (hi - lo))
  {
    var rows := v.Iter();
    var kept := rows[.. lo] + rows[hi ..];
    forall i | 0 <= i < lo
      ensures r.Row(i) == v.Row(i)
    {
      assert kept[i] == rows[i];
    }
    forall i | lo <= i < r.Rows()
      ensures r.Row(i) == v.Row(i + (hi - lo))
    {
      assert kept[i] == rows[i + (hi - lo)];
    }
  }

  /** The bounds of `remove_range` only matter through the rows they name:
      an included end `i` removes what an excluded end `i + 1` removes, and
      an unbounded side is the store's own edge. */
  lemma {:induction false} RemoveRangeHalfOpen<T>(v: RowVec<T>, start: Bound, end: Bound)
    requires v.Valid() && !start.Excluded?
    requires StartRow(start) <= EndRow(end, v.Rows()) <= v.Rows()
    ensures v.RemoveRange(start, end)
         == v.RemoveRange(Included(StartRow(start)), Excluded(EndRow(end, v.Rows())))
  {
    SameRows(v.RemoveRange(start, end),
             v.RemoveRange(Included(StartRow(start)), Excluded(EndRow(end, v.Rows()))));
  }

  /** After `swap_nonoverlapping(a, b)` row `a` holds the old row `b`, row
      `b` the old row `a`, and every other row is unchanged. */
  lemma {:induction false} SwapReadBack<T>(v: RowVec<T>, a: nat, b: nat)
    requires v.Valid() && a != b && a < v.Rows() && b < v.Rows()
    ensures v.SwapNonoverlapping(a, b).Rows() == v.Rows()
    ensures v.SwapNonoverlapping(a, b).Row(a) == v.Row(b)
    ensures v.SwapNonoverlapping(a, b).Row(b) == v.Row(a)
    ensures forall i :: 0 <= i < v.Rows() && i != a && i != b ==>
              v.SwapNonoverlapping(a, b).Row(i) == v.Row(i)
  {
  }

  /** Swapping the same two rows twice restores the store. */
  lemma {:induction false} SwapInvolution<T>(v: RowVec<T>, a: nat, b: nat)
    requires v.Valid() && a != b && a < v.Rows() && b < v.Rows()
    ensures v.SwapNonoverlapping(a, b).SwapNonoverlapping(a, b) == v
  {
    var once := v.SwapNonoverlapping(a, b);
    SwapReadBack(v, a, b);
    var twice := once.SwapNonoverlapping(a, b);
    var rows := v.Iter();
    assert twice.Iter() == rows[a := v.Row(b)][b := v.Row(a)][a := v.Row(a)][b := v.Row(b)];
    assert twice.Iter() == rows;
    SameRows(twice, v);
  }

  /** The order of the two row indices does not matter. */
  lemma {:induction false} SwapSymmetric<T>(v: RowVec<T>, a: nat, b: nat)
    requires v.Valid() && a != b && a < v.Rows() && b < v.Rows()
    ensures v.SwapNonoverlapping(a, b) == v.SwapNonoverlapping(b, a)
  {
    var rows := v.Iter();
    assert rows[a := v.Row(b)][b := v.Row(a)] == rows[b := v.Row(a)][a := v.Row(b)];
    SameRows(v.SwapNonoverlapping(a, b), v.SwapNonoverlapping(b, a));
  }

  /** Writing row `i` makes it read back as the written row and leaves every
      other row as it was. */
  lemma {:induction false} WriteRowReadBack<T>(v: RowVec<T>, i: nat, row: seq<T>)
    requires v.Valid() && i < v.Rows() && |row| == v.columns
    ensures v.WriteRow(i, row).Rows() == v.Rows()
    ensures v.WriteRow(i, row).Row(i) == row
    ensures forall j :: 0 <= j < v.Rows() && j != i ==> v.WriteRow(i, row).Row(j) == v.Row(j)
  {
  }

  /** Writing cell `(i, col)` makes it read back as the written value and
      leaves every other cell as it was. */
  lemma {:induction false} WriteCellReadBack<T>(v: RowVec<T>, i: nat, col: nat, x: T)
    requires v.Valid() && col < v.columns && i < v.Rows()
    ensures v.WriteCell(i, col, x).Rows() == v.Rows()
    ensures v.WriteCell(i, col, x).Cell(i, col) == x
    ensures forall j, k :: 0 <= j < v.Rows() && 0 <= k < v.columns && (j, k) != (i, col) ==>
              v.WriteCell(i, col, x).Cell(j, k) == v.Cell(j, k)
  {
    var r := v.WriteCell(i, col, x);
    forall j, k | 0 <= j < v.Rows() && 0 <= k < v.columns && (j, k) != (i, col)
      ensures r.Cell(j, k) == v.Cell(j, k)
    {
      assert r.Iter()[j] == v.Iter()[i := v.Row(i)[col := x]][j];
    }
  }

  /** Row `i` of a view taken with `range` is row `lo + i` of the store,
      where `lo` is the first row the range names. */
  lemma {:induction false} SliceRangeRow<T>(v: RowVec<T>, start: Bound, end: Bound, i: nat)
    requires v.Valid()
    requires StartRow(start) <= EndRow(end, v.Rows()) <= v.Rows()
    requires i < EndRow(end, v.Rows()) - StartRow(start)
    ensures v.Slice().Range(start, end).Row(i) == v.Row(StartRow(start) + i)
  {
  }
}
