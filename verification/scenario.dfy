/** The crate's own usage scenario (`common_ops` in src/test.rs): a store of
    row width 2 filled with the rows `[0, 1], [2, 3], ..., [18, 19]`, read
    by row and by cell, viewed through a one-row range, and shortened by
    removing its first row. */
module CommonOps {
  import opened RowLayout
  import opened RowVecs

  /** The rows `[2k, 2k + 1]` for `k < n`: what the test's loop pushes. */
  function CountingRows(n: nat): (rows: seq<seq<int>>)
    ensures |rows| == n && Uniform(2, rows)
  {
    seq(n, k => [2 * k, 2 * k + 1])
  }

  /** Runs the test's steps and returns what its assertions read. */
  method Run() returns (row1: seq<int>, cell10: int, cell11: int,
                        viewRows: nat, view0: seq<int>, moved0: seq<int>)
    ensures row1 == [2, 3] && cell10 == 2 && cell11 == 3
    ensures viewRows == 1 && view0 == [2, 3]
    ensures moved0 == [2, 3]
  {
    var r := New<int>(2);
    var c := 0;
    while c < 10
      invariant c <= 10 && r.Valid() && r.columns == 2
      invariant r.Iter() == CountingRows(c)
    {
      assert CountingRows(c) + [[2 * c, 2 * c + 1]] == CountingRows(c + 1);
      r := r.Push([2 * c, 2 * c + 1]);
      c := c + 1;
    }
    assert r.Iter()[0] == [0, 1] && r.Iter()[1] == [2, 3] && r.Iter()[2] == [4, 5];
    row1 := r.Row(1);
    cell10 := r.Cell(1, 0);
    cell11 := r.Cell(1, 1);
    var s := r.Slice().Range(Included(1), Excluded(2));
    viewRows := s.Rows();
    view0 := s.Row(0);
    var shorter := r.RemoveRange(Included(0), Excluded(1));
    RemoveRangeShifts(r, Included(0), Excluded(1));
    moved0 := shorter.Row(0);
  }
}
