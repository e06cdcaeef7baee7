/** Row-major addressing over one flat buffer.

    A buffer of row width `c` holds whole rows of `c` elements each; row `i`
    is the window `data[i*c .. i*c + c]` and cell `(i, col)` is the element
    at flat offset `c*i + col`. The owned store and the borrowed view both
    rest on the definitions here, so each concept is stated once. */
module RowLayout {

  /** A row range bound, as Rust's `Bound<usize>` in row units. */
  datatype Bound = Included(row: nat) | Excluded(row: nat) | Unbounded

  /** First row a range keeps, for a start bound. */
  function StartRow(b: Bound): nat {
    match b
    case Included(i) => i
    case Excluded(i) => i + 1
    case Unbounded => 0
  }

  /** One past the last row a range keeps, for an end bound over `rows` rows. */
  function EndRow(b: Bound, rows: nat): nat {
    match b
    case Included(i) => i + 1
    case Excluded(i) => i
    case Unbounded => rows
  }

  /** Element offset where a range starts: the start bound times the row
      width, one row further for an excluded bound. */
  function StartOffset(b: Bound, c: nat): (s: nat)
    ensures s == StartRow(b) * c
  {
    match b
    case Included(i) => i * c
    case Excluded(i) => (i + 1) * c
    case Unbounded => 0
  }

  /** Element offset where a range over `data` ends: one row further for an
      included bound, the end of the buffer when unbounded. */
  function EndOffset<T>(b: Bound, c: nat, data: seq<T>): (e: nat)
    requires Aligned(c, data)
    ensures e == EndRow(b, RowCount(c, data)) * c
  {
    match b
    case Included(i) => (i + 1) * c
    case Excluded(i) => i * c
    case Unbounded => |data|
  }

  /** The buffer holds only whole rows of a non-zero width. */
  predicate Aligned<T>(c: nat, data: seq<T>) {
    c > 0 && |data| % c == 0
  }

  /** The number of rows, as `rows()` computes it by division. */
  function RowCount<T>(c: nat, data: seq<T>): (n: nat)
    requires Aligned(c, data)
    ensures n * c == |data|
  {
    |data| / c
  }

  /** Row `i`: the `c` elements starting at flat offset `i*c`. */
  function RowAt<T>(c: nat, data: seq<T>, i: nat): (row: seq<T>)
    requires Aligned(c, data) && i < RowCount(c, data)
    ensures |row| == c
  {
    RowEnd(i, RowCount(c, data), c);
    data[i * c .. i * c + c]
  }

  /** Cell `(i, col)`: the element at flat offset `c*i + col`. */
  function CellAt<T>(c: nat, data: seq<T>, i: nat, col: nat): T
    requires Aligned(c, data) && i < RowCount(c, data) && col < c
  {
    RowEnd(i, RowCount(c, data), c);
    data[c * i + col]
  }

  /** The rows of the buffer in order: what `chunks(columns)` yields. */
  function Chunks<T>(c: nat, data: seq<T>): (rows: seq<seq<T>>)
    requires Aligned(c, data)
    ensures |rows| == RowCount(c, data)
    ensures forall i :: 0 <= i < |rows| ==> rows[i] == RowAt(c, data, i)
    decreases |data|
  {
    if |data| == 0 then []
    else
      TailAligned(c, data);
      var rest := Chunks(c, data[c..]);
      assert forall i :: 1 <= i < RowCount(c, data) ==> RowAt(c, data, i) == rest[i - 1] by {
        forall i | 1 <= i < RowCount(c, data)
          ensures RowAt(c, data, i) == RowAt(c, data[c..], i - 1)
        {
          RowAtTail(c, data, i);
        }
      }
      [data[..c]] + rest
  }

  /** Dropping the first row leaves one row fewer. */
  lemma {:induction false} TailAligned<T>(c: nat, data: seq<T>)
    requires Aligned(c, data) && |data| > 0
    ensures Aligned(c, data[c..]) && RowCount(c, data[c..]) + 1 == RowCount(c, data)
  {
    var n := RowCount(c, data);
    MulSucc(n - 1, c);
    MulMod(n - 1, c);
  }

  /** Row `i` of the buffer is row `i - 1` of the buffer without its first row. */
  lemma {:induction false} RowAtTail<T>(c: nat, data: seq<T>, i: nat)
    requires Aligned(c, data) && 1 <= i < RowCount(c, data)
    ensures Aligned(c, data[c..]) && RowAt(c, data, i) == RowAt(c, data[c..], i - 1)
  {
    TailAligned(c, data);
    var k := (i - 1) * c;
    MulSucc(i - 1, c);
    RowEnd(i, RowCount(c, data), c);
    assert i * c == k + c;
    assert data[i * c .. i * c + c] == data[c..][k .. k + c];
  }

  /** Concatenation of a sequence of rows: the inverse of `Chunks`. */
  function Flatten<T>(rows: seq<seq<T>>): seq<T> {
    if |rows| == 0 then [] else rows[0] + Flatten(rows[1..])
  }

  /** Every row of `rows` has exactly `c` elements. */
  predicate Uniform<T>(c: nat, rows: seq<seq<T>>) {
    forall i :: 0 <= i < |rows| ==> |rows[i]| == c
  }

  // ---------------------------------------------------------------------
  // Rows, cells and the sequence of rows.

  /** The sequence of rows is the only one with the right length whose
      entries are the rows. */
  lemma {:induction false} ChunksUnique<T>(c: nat, data: seq<T>, rows: seq<seq<T>>)
    requires Aligned(c, data) && |rows| == RowCount(c, data)
    requires forall i :: 0 <= i < |rows| ==> rows[i] == RowAt(c, data, i)
    ensures rows == Chunks(c, data)
  {
  }

  /** Concatenating the rows gives back the buffer: iterating loses nothing. */
  lemma {:induction false} FlattenChunks<T>(c: nat, data: seq<T>)
    requires Aligned(c, data)
    ensures Flatten(Chunks(c, data)) == data
    decreases |data|
  {
    if |data| > 0 {
      TailAligned(c, data);
      ChunksCons(c, data);
      FlattenCons(data[..c], Chunks(c, data[c..]));
      FlattenChunks(c, data[c..]);
      assert data[..c] + data[c..] == data;
    }
  }

  /** A non-empty aligned buffer is cut into its first row, then the rest. */
  lemma {:induction false} ChunksCons<T>(c: nat, data: seq<T>)
    requires Aligned(c, data) && |data| > 0
    ensures c <= |data| && Aligned(c, data[c..])
    ensures Chunks(c, data) == [data[..c]] + Chunks(c, data[c..])
  {
    TailAligned(c, data);
  }

  /** Flattening a row in front of others puts its elements first. */
  lemma {:induction false} FlattenCons<T>(row: seq<T>, rest: seq<seq<T>>)
    ensures Flatten([row] + rest) == row + Flatten(rest)
  {
    assert ([row] + rest)[1..] == rest;
  }

  /** Cutting the concatenation of uniform rows into rows gives them back. */
  lemma {:induction false} ChunksFlatten<T>(c: nat, rows: seq<seq<T>>)
    requires c > 0 && Uniform(c, rows)
    ensures Aligned(c, Flatten(rows)) && RowCount(c, Flatten(rows)) == |rows|
    ensures Chunks(c, Flatten(rows)) == rows
  {
    if |rows| == 0 {
    } else {
      var flat := Flatten(rows);
      ChunksFlatten(c, rows[1..]);
      var tail := Flatten(rows[1..]);
      var m := RowCount(c, tail);
      MulSucc(m, c);
      MulMod(m + 1, c);
      assert Aligned(c, flat);
      assert flat[..c] == rows[0] && flat[c..] == tail;
      TailAligned(c, flat);
      assert Chunks(c, flat) == [flat[..c]] + Chunks(c, flat[c..]);
    }
  }

  /** A buffer is determined by its row width and its rows. */
  lemma {:induction false} ChunksInjective<T>(c: nat, a: seq<T>, b: seq<T>)
    requires Aligned(c, a) && Aligned(c, b)
    requires Chunks(c, a) == Chunks(c, b)
    ensures a == b
  {
    FlattenChunks(c, a);
    FlattenChunks(c, b);
  }

  /** Cell `(i, col)` is entry `col` of row `i`. */
  lemma {:induction false} CellOfRow<T>(c: nat, data: seq<T>, i: nat, col: nat)
    requires Aligned(c, data) && i < RowCount(c, data) && col < c
    ensures CellAt(c, data, i, col) == RowAt(c, data, i)[col]
  {
    RowEnd(i, RowCount(c, data), c);
    assert c * i == i * c;
  }

  /** The window `data[i*c .. i*c + c]` lies in the buffer exactly when row
      `i` exists. */
  lemma {:induction false} RowInBounds<T>(c: nat, data: seq<T>, i: nat)
    requires Aligned(c, data)
    ensures i * c + c <= |data| <==> i < RowCount(c, data)
  {
    var n := RowCount(c, data);
    if i < n {
      RowEnd(i, n, c);
    } else {
      RowPast(i, n, c);
    }
  }

  /** With `col < c`, flat offset `c*i + col` lies in the buffer exactly
      when row `i` exists. */
  lemma {:induction false} CellInBounds<T>(c: nat, data: seq<T>, i: nat, col: nat)
    requires Aligned(c, data) && col < c
    ensures c * i + col < |data| <==> i < RowCount(c, data)
  {
    var n := RowCount(c, data);
    assert c * i == i * c;
    if i < n {
      RowEnd(i, n, c);
    } else {
      RowPast(i, n, c);
    }
  }

  /** Distinct cells have distinct flat offsets. */
  lemma {:induction false} CellOffsetInjective(c: nat, i: nat, col: nat, j: nat, col': nat)
    requires col < c && col' < c
    requires c * i + col == c * j + col'
    ensures i == j && col == col'
  {
    assert c * i == i * c && c * j == j * c;
    if i < j {
      RowEnd(i, j, c);
    } else if j < i {
      RowEnd(j, i, c);
    }
  }

  // ---------------------------------------------------------------------
  // Windows and concatenations of whole rows.

  /** Rows `[lo, hi)` of a buffer, cut out as flat offsets `[lo*c, hi*c)`,
      form a buffer whose row `i` is row `lo + i` of the original. */
  lemma {:induction false} Window<T>(c: nat, data: seq<T>, lo: nat, hi: nat)
    requires Aligned(c, data) && lo <= hi <= RowCount(c, data)
    ensures lo * c <= hi * c <= |data|
    ensures Aligned(c, data[lo * c .. hi * c])
    ensures RowCount(c, data[lo * c .. hi * c]) == hi - lo
    ensures forall i :: 0 <= i < hi - lo ==>
              RowAt(c, data[lo * c .. hi * c], i) == RowAt(c, data, lo + i)
  {
    var n := RowCount(c, data);
    MulLe(lo, hi, c);
    MulLe(hi, n, c);
    MulDiff(lo, hi, c);
    MulMod(hi - lo, c);
    forall i | 0 <= i < hi - lo
      ensures RowAt(c, data[lo * c .. hi * c], i) == RowAt(c, data, lo + i)
    {
      WindowRow(c, data, lo, hi, i);
    }
  }

  /** Row `i` of the window of rows `[lo, hi)` is row `lo + i` of the buffer. */
  lemma {:induction false} WindowRow<T>(c: nat, data: seq<T>, lo: nat, hi: nat, i: nat)
    requires c > 0 && lo <= hi && hi * c <= |data| && i < hi - lo
    ensures lo * c + i * c + c <= hi * c
    ensures data[lo * c .. hi * c][i * c .. i * c + c] == data[(lo + i) * c .. (lo + i) * c + c]
  {
    MulAdd(lo, i, c);
    RowEnd(lo + i, hi, c);
    SliceOfSlice(data, lo * c, hi * c, i * c, c);
  }

  /** A piece of a slice is a slice of the whole, shifted by the slice's start. */
  lemma {:induction false} SliceOfSlice<T>(data: seq<T>, lo: nat, hi: nat, k: nat, len: nat)
    requires lo + k + len <= hi <= |data|
    ensures data[lo .. hi][k .. k + len] == data[lo + k .. lo + k + len]
  {
    var v := data[lo .. hi][k .. k + len];
    assert forall j :: 0 <= j < len ==> v[j] == data[lo + k + j];
  }

  /** The rows of a window are the corresponding slice of the rows. */
  lemma {:induction false} ChunksWindow<T>(c: nat, data: seq<T>, lo: nat, hi: nat)
    requires Aligned(c, data) && lo <= hi <= RowCount(c, data)
    ensures lo * c <= hi * c <= |data| && Aligned(c, data[lo * c .. hi * c])
    ensures Chunks(c, data[lo * c .. hi * c]) == Chunks(c, data)[lo .. hi]
  {
    Window(c, data, lo, hi);
    ChunksUnique(c, data[lo * c .. hi * c], Chunks(c, data)[lo .. hi]);
  }

  /** Rows of a concatenation: those of the first buffer, then the second's. */
  lemma {:induction false} ConcatRows<T>(c: nat, a: seq<T>, b: seq<T>)
    requires Aligned(c, a) && Aligned(c, b)
    ensures Aligned(c, a + b)
    ensures RowCount(c, a + b) == RowCount(c, a) + RowCount(c, b)
    ensures forall i :: 0 <= i < RowCount(c, a) ==> RowAt(c, a + b, i) == RowAt(c, a, i)
    ensures forall i :: RowCount(c, a) <= i < RowCount(c, a) + RowCount(c, b) ==>
              RowAt(c, a + b, i) == RowAt(c, b, i - RowCount(c, a))
  {
    var na, nb := RowCount(c, a), RowCount(c, b);
    MulAdd(na, nb, c);
    MulMod(na + nb, c);
    forall i | 0 <= i < na
      ensures RowAt(c, a + b, i) == RowAt(c, a, i)
    {
      RowEnd(i, na, c);
      assert (a + b)[i * c .. i * c + c] == a[i * c .. i * c + c];
    }
    forall i | na <= i < na + nb
      ensures RowAt(c, a + b, i) == RowAt(c, b, i - na)
    {
      MulAdd(na, i - na, c);
      RowEnd(i - na, nb, c);
      assert (a + b)[i * c .. i * c + c] == b[(i - na) * c .. (i - na) * c + c];
    }
  }

  /** The rows of a concatenation are the concatenation of the rows. */
  lemma {:induction false} ChunksConcat<T>(c: nat, a: seq<T>, b: seq<T>)
    requires Aligned(c, a) && Aligned(c, b)
    ensures Aligned(c, a + b)
    ensures Chunks(c, a + b) == Chunks(c, a) + Chunks(c, b)
  {
    ConcatRows(c, a, b);
    ChunksUnique(c, a + b, Chunks(c, a) + Chunks(c, b));
  }

  /** The first `k` rows, cut out as the first `k*c` elements. */
  lemma {:induction false} ChunksPrefix<T>(c: nat, data: seq<T>, k: nat)
    requires Aligned(c, data) && k <= RowCount(c, data)
    ensures k * c <= |data| && Aligned(c, data[.. k * c])
    ensures Chunks(c, data[.. k * c]) == Chunks(c, data)[.. k]
  {
    ChunksWindow(c, data, 0, k);
    assert data[.. k * c] == data[0 * c .. k * c];
  }

  /** The rows from `k` on, cut out as the elements from `k*c` on. */
  lemma {:induction false} ChunksSuffix<T>(c: nat, data: seq<T>, k: nat)
    requires Aligned(c, data) && k <= RowCount(c, data)
    ensures k * c <= |data| && Aligned(c, data[k * c ..])
    ensures Chunks(c, data[k * c ..]) == Chunks(c, data)[k ..]
  {
    var n := RowCount(c, data);
    ChunksWindow(c, data, k, n);
    assert |data| == n * c;
    assert data[k * c ..] == data[k * c .. |data|];
  }

  /** A buffer of exactly one row width is that single row. */
  lemma {:induction false} SingleRow<T>(c: nat, row: seq<T>)
    requires c > 0 && |row| == c
    ensures Aligned(c, row) && RowCount(c, row) == 1
    ensures Chunks(c, row) == [row]
  {
    MulMod(1, c);
    assert RowAt(c, row, 0) == row[0 * c .. 0 * c + c] == row;
    ChunksUnique(c, row, [row]);
  }

  /** The buffer with row `i` overwritten by `row`: everything before the
      row, the new row, everything after it. */
  function ReplaceRow<T>(c: nat, data: seq<T>, i: nat, row: seq<T>): (r: seq<T>)
    requires Aligned(c, data) && i < RowCount(c, data) && |row| == c
    ensures |r| == |data| && Aligned(c, r) && RowCount(c, r) == RowCount(c, data)
  {
    MulSucc(i, c);
    RowEnd(i, RowCount(c, data), c);
    data[.. i * c] + row + data[(i + 1) * c ..]
  }

  /** The written buffer is the old one with the row's elements spliced in
      at the row's offset. */
  lemma {:induction false} ReplaceRowSplice<T>(c: nat, data: seq<T>, i: nat, row: seq<T>)
    requires Aligned(c, data) && i < RowCount(c, data) && |row| == c
    ensures i * c + c <= |data|
    ensures ReplaceRow(c, data, i, row) == data[.. i * c] + row + data[i * c + c ..]
  {
    MulSucc(i, c);
    RowEnd(i, RowCount(c, data), c);
  }

  /** Overwriting the window of row `i` replaces exactly entry `i` of the
      rows. */
  lemma {:induction false} ReplaceRowChunks<T>(c: nat, data: seq<T>, i: nat, row: seq<T>)
    requires Aligned(c, data) && i < RowCount(c, data) && |row| == c
    ensures Chunks(c, ReplaceRow(c, data, i, row)) == Chunks(c, data)[i := row]
  {
    MulSucc(i, c);
    RowEnd(i, RowCount(c, data), c);
    var rows := Chunks(c, data);
    ChunksPrefix(c, data, i);
    ChunksSuffix(c, data, i + 1);
    SingleRow(c, row);
    var before, after := data[.. i * c], data[(i + 1) * c ..];
    ChunksConcat(c, before, row);
    ChunksConcat(c, before + row, after);
    assert rows[i := row] == rows[.. i] + [row] + rows[i + 1 ..];
  }

  /** The buffer with rows `[lo, hi)` drained: what is before them followed
      by what is after them. */
  function DrainRows<T>(c: nat, data: seq<T>, lo: nat, hi: nat): (r: seq<T>)
    requires Aligned(c, data) && lo <= hi <= RowCount(c, data)
    ensures Aligned(c, r)
    ensures Chunks(c, r) == Chunks(c, data)[.. lo] + Chunks(c, data)[hi ..]
  {
    ChunksPrefix(c, data, lo);
    ChunksSuffix(c, data, hi);
    MulLe(lo, hi, c);
    ChunksConcat(c, data[.. lo * c], data[hi * c ..]);
    data[.. lo * c] + data[hi * c ..]
  }

  // ---------------------------------------------------------------------
  // Arithmetic of row offsets.

  lemma {:induction false} MulSucc(n: nat, c: nat)
    ensures (n + 1) * c == n * c + c
  {
  }

  lemma {:induction false} MulMod(n: nat, c: nat)
    requires c > 0
    ensures (n * c) % c == 0 && (n * c) / c == n
  {
    var q, r := (n * c) / c, (n * c) % c;
    assert n * c == q * c + r;
    if q < n {
      MulLe(q + 1, n, c);
      MulSucc(q, c);
    } else if q > n {
      MulLe(n + 1, q, c);
      MulSucc(n, c);
    }
  }

  lemma {:induction false} MulLe(a: nat, b: nat, c: nat)
    requires a <= b
    ensures a * c <= b * c
  {
    assert b * c == a * c + (b - a) * c;
  }

  lemma {:induction false} MulDiff(a: nat, b: nat, c: nat)
    requires a <= b
    ensures b * c - a * c == (b - a) * c
  {
  }

  lemma {:induction false} MulAdd(a: nat, b: nat, c: nat)
    ensures (a + b) * c == a * c + b * c
  {
  }

  /** A row that exists ends inside the buffer. */
  lemma {:induction false} RowEnd(i: nat, n: nat, c: nat)
    requires i < n
    ensures i * c + c <= n * c
  {
    MulSucc(i, c);
    MulLe(i + 1, n, c);
  }

  /** A row index at or past the row count starts at or past the end. */
  lemma {:induction false} RowPast(i: nat, n: nat, c: nat)
    requires n <= i
    ensures n * c <= i * c
  {
    MulLe(n, i, c);
  }
}
