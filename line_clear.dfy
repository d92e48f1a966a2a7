/** Line clearing on the settled cells: bucket the cells by row, drop the rows that
    hold `columnsLen` cells (and the empty ones), and stack the remaining rows at
    the bottom of the board in their original top-to-bottom order. */
module LineClear {
  import opened Blocks
  import opened Grid

  /** The cells of `s` on row `y`. */
  function Row(s: set<Coords>, y: int): set<Coords>
  {
    set c | c in s && c.y == y
  }

  /** All cells of `row` lie on one row of the board. */
  predicate OnOneRow(row: set<Coords>)
  {
    forall c, d :: c in row && d in row ==> c.y == d.y
  }

  /** The fold that sorts the settled cells into one bucket per row. The source
      indexes a vector of `rowsLen` buckets by each cell's row, so every cell must
      lie above row `rowsLen`. */
  function Buckets(s: set<Coords>, rowsLen: nat): (b: seq<set<Coords>>)
    requires forall c :: c in s ==> c.y < rowsLen
    ensures |b| == rowsLen
    ensures forall y, c :: 0 <= y < rowsLen ==> (c in b[y] <==> c in s && c.y == y)
  {
    seq(rowsLen, y => Row(s, y))
  }

  /** A bucket survives the clear when it is neither full nor empty. */
  predicate Kept(row: set<Coords>, columnsLen: nat)
  {
    |row| != columnsLen && row != {}
  }

  /** The buckets that survive, in their original order. */
  function Uncompleted(bs: seq<set<Coords>>, columnsLen: nat): (u: seq<set<Coords>>)
    ensures |u| <= |bs|
  {
    if bs == [] then []
    else
      var init := Uncompleted(bs[..|bs| - 1], columnsLen);
      if Kept(bs[|bs| - 1], columnsLen) then init + [bs[|bs| - 1]] else init
  }

  /** Every surviving bucket is neither full nor empty. */
  lemma {:induction false} UncompletedKept(bs: seq<set<Coords>>, columnsLen: nat)
    ensures forall k :: 0 <= k < |Uncompleted(bs, columnsLen)| ==> Kept(Uncompleted(bs, columnsLen)[k], columnsLen)
  {
    if bs != [] {
      UncompletedKept(bs[..|bs| - 1], columnsLen);
    }
  }

  /** The positions in `bs` of the buckets that survive, in increasing order. */
  function KeptIndices(bs: seq<set<Coords>>, columnsLen: nat): (ys: seq<nat>)
    ensures |ys| == |Uncompleted(bs, columnsLen)|
  {
    if bs == [] then []
    else
      var init := KeptIndices(bs[..|bs| - 1], columnsLen);
      if Kept(bs[|bs| - 1], columnsLen) then init + [|bs| - 1] else init
  }

  /** The kept indices are positions of `bs`, in strictly increasing order. */
  lemma {:induction false} KeptIndicesOrdered(bs: seq<set<Coords>>, columnsLen: nat)
    ensures forall k :: 0 <= k < |KeptIndices(bs, columnsLen)| ==> KeptIndices(bs, columnsLen)[k] < |bs|
    ensures forall k, l :: 0 <= k < l < |KeptIndices(bs, columnsLen)| ==>
              KeptIndices(bs, columnsLen)[k] < KeptIndices(bs, columnsLen)[l]
  {
    if bs != [] {
      var prefix := bs[..|bs| - 1];
      KeptIndicesOrdered(prefix, columnsLen);
      var init := KeptIndices(prefix, columnsLen);
      assert forall k :: 0 <= k < |init| ==> init[k] < |bs| - 1;
    }
  }

  /** The k-th surviving bucket is the bucket at the k-th kept index, and every
      bucket that is neither full nor empty has its index kept. */
  lemma {:induction false} KeptIndicesSelect(bs: seq<set<Coords>>, columnsLen: nat)
    ensures var ys := KeptIndices(bs, columnsLen);
            (forall k :: 0 <= k < |ys| ==> ys[k] < |bs| && Uncompleted(bs, columnsLen)[k] == bs[ys[k]]) &&
            (forall i :: 0 <= i < |bs| && Kept(bs[i], columnsLen) ==> i in ys)
  {
    if bs != [] {
      var n := |bs| - 1;
      var prefix := bs[..n];
      KeptIndicesSelect(prefix, columnsLen);
      KeptIndicesOrdered(prefix, columnsLen);
      var init := KeptIndices(prefix, columnsLen);
      var ys := KeptIndices(bs, columnsLen);
      var u := Uncompleted(bs, columnsLen);
      forall k | 0 <= k < |ys| ensures ys[k] < |bs| && u[k] == bs[ys[k]] {
        if k < |init| {
          assert prefix[init[k]] == bs[init[k]];
        }
      }
      forall i | 0 <= i < |bs| && Kept(bs[i], columnsLen) ensures i in ys {
        if i < n {
          assert prefix[i] == bs[i];
          assert i in init;
        }
      }
    }
  }

  /** The filter of the clear, stated as a whole: the survivors are the buckets at
      the kept indices, those indices increase, and a bucket is selected exactly
      when it is neither full nor empty. */
  lemma UncompletedIsFilter(bs: seq<set<Coords>>, columnsLen: nat)
    ensures var ys := KeptIndices(bs, columnsLen);
            |ys| == |Uncompleted(bs, columnsLen)| &&
            (forall k :: 0 <= k < |ys| ==> ys[k] < |bs| && Uncompleted(bs, columnsLen)[k] == bs[ys[k]]) &&
            (forall k, l :: 0 <= k < l < |ys| ==> ys[k] < ys[l]) &&
            (forall i :: 0 <= i < |bs| ==> (i in ys <==> Kept(bs[i], columnsLen)))
  {
    KeptIndicesSelect(bs, columnsLen);
    KeptIndicesOrdered(bs, columnsLen);
    UncompletedKept(bs, columnsLen);
    var ys := KeptIndices(bs, columnsLen);
    forall i | 0 <= i < |bs| && i in ys ensures Kept(bs[i], columnsLen) {
      var k :| 0 <= k < |ys| && ys[k] == i;
      assert Uncompleted(bs, columnsLen)[k] == bs[i];
    }
  }

  /** The cells of `row` moved onto row `y`, column and colour kept. */
  function Relabel(row: set<Coords>, y: nat): set<Coords>
  {
    set c | c in row :: Coords(c.x, y, c.color)
  }

  /** Stacks `rows` so that the last one lands on row `bottom - 1`, the one before it
      on `bottom - 2`, and so on upwards (the reversed, enumerated fold). */
  function Restack(rows: seq<set<Coords>>, bottom: nat): set<Coords>
    requires |rows| <= bottom
    decreases |rows|
  {
    if rows == [] then {}
    else Restack(rows[..|rows| - 1], bottom - 1) + Relabel(rows[|rows| - 1], bottom - 1)
  }

  /** A restack of n rows occupies only the n rows above `bottom`. */
  lemma {:induction false} RestackBounds(rows: seq<set<Coords>>, bottom: nat)
    requires |rows| <= bottom
    ensures forall c :: c in Restack(rows, bottom) ==> bottom - |rows| <= c.y < bottom
    decreases |rows|
  {
    if rows != [] {
      RestackBounds(rows[..|rows| - 1], bottom - 1);
    }
  }

  /** The settled cells after clearing completed lines. */
  function LinesCleared(s: set<Coords>, columnsLen: nat, rowsLen: nat): (r: set<Coords>)
    requires forall c :: c in s ==> c.y < rowsLen
    ensures forall c :: c in r ==> c.y < rowsLen
  {
    RestackBounds(Uncompleted(Buckets(s, rowsLen), columnsLen), rowsLen);
    Restack(Uncompleted(Buckets(s, rowsLen), columnsLen), rowsLen)
  }

  /** The rows of `s` that survive a clear, top to bottom. */
  function SurvivingRows(s: set<Coords>, columnsLen: nat, rowsLen: nat): seq<nat>
    requires forall c :: c in s ==> c.y < rowsLen
  {
    KeptIndices(Buckets(s, rowsLen), columnsLen)
  }

  /** The rows of `s` that hold `columnsLen` cells. */
  function FullRows(s: set<Coords>, columnsLen: nat, rowsLen: nat): set<nat>
  {
    set y | 0 <= y < rowsLen && |Row(s, y)| == columnsLen
  }

  // ---------------------------------------------------------------------------
  // Row-level facts

  lemma RowOfUnion(a: set<Coords>, b: set<Coords>, y: nat)
    ensures Row(a + b, y) == Row(a, y) + Row(b, y)
  {
  }

  lemma RowOfRelabel(row: set<Coords>, y0: nat, y: nat)
    ensures Row(Relabel(row, y0), y) == if y == y0 then Relabel(row, y0) else {}
  {
  }

  /** Moving a row of cells to another row keeps its size. */
  lemma RelabelSize(row: set<Coords>, y: nat)
    requires OnOneRow(row)
    ensures |Relabel(row, y)| == |row|
  {
    if row != {} {
      var c0 :| c0 in row;
      assert Relabel(row, y) == Translated(row, 0, y - c0.y);
      TranslatedSize(row, 0, y - c0.y);
    }
  }

  /** Two sets with the same cells on every row are equal. */
  lemma SameRows(a: set<Coords>, b: set<Coords>)
    requires forall y: nat :: Row(a, y) == Row(b, y)
    ensures a == b
  {
    forall c | c in a ensures c in b {
      assert c in Row(a, c.y);
    }
    forall c | c in b ensures c in a {
      assert c in Row(b, c.y);
    }
  }

  /** Row `y` of a restack is the matching input row moved onto `y`, or empty. */
  lemma {:induction false} RestackRow(rows: seq<set<Coords>>, bottom: nat, y: nat)
    requires |rows| <= bottom
    ensures Row(Restack(rows, bottom), y) ==
              if bottom - |rows| <= y < bottom then Relabel(rows[y - (bottom - |rows|)], y) else {}
    decreases |rows|
  {
    if rows != [] {
      var n := |rows|;
      var init := rows[..n - 1];
      RestackRow(init, bottom - 1, y);
      RowOfUnion(Restack(init, bottom - 1), Relabel(rows[n - 1], bottom - 1), y);
      RowOfRelabel(rows[n - 1], bottom - 1, y);
      if bottom - n <= y < bottom - 1 {
        assert init[y - (bottom - n)] == rows[y - (bottom - n)];
      }
    }
  }

  /** Row `y` after a clear: empty above the surviving rows, otherwise the k-th
      surviving row of `s` moved onto `y`. */
  lemma ClearedRow(s: set<Coords>, columnsLen: nat, rowsLen: nat, y: nat)
    requires forall c :: c in s ==> c.y < rowsLen
    ensures var ys := SurvivingRows(s, columnsLen, rowsLen);
            Row(LinesCleared(s, columnsLen, rowsLen), y) ==
              if rowsLen - |ys| <= y < rowsLen then Relabel(Row(s, ys[y - (rowsLen - |ys|)]), y) else {}
  {
    var bs := Buckets(s, rowsLen);
    var u := Uncompleted(bs, columnsLen);
    var ys := KeptIndices(bs, columnsLen);
    assert LinesCleared(s, columnsLen, rowsLen) == Restack(u, rowsLen);
    RestackRow(u, rowsLen, y);
    if rowsLen - |ys| <= y < rowsLen {
      var k := y - (rowsLen - |ys|);
      assert u[k] == bs[ys[k]] by { KeptIndicesSelect(bs, columnsLen); }
      assert bs[ys[k]] == Row(s, ys[k]);
    }
  }

  // ---------------------------------------------------------------------------
  // The order of the surviving rows

  lemma {:induction false} IncreasingBound(ys: seq<nat>, bound: nat, k: nat)
    requires forall i, j :: 0 <= i < j < |ys| ==> ys[i] < ys[j]
    requires forall i :: 0 <= i < |ys| ==> ys[i] < bound
    requires k < |ys|
    ensures ys[k] + (|ys| - k) <= bound
    decreases |ys| - k
  {
    if k + 1 < |ys| {
      IncreasingBound(ys, bound, k + 1);
    }
  }

  /** The surviving rows are exactly the rows of `s` that are neither full nor
      empty, listed top to bottom. */
  lemma SurvivorsAreKept(s: set<Coords>, columnsLen: nat, rowsLen: nat)
    requires forall c :: c in s ==> c.y < rowsLen
    ensures var ys := SurvivingRows(s, columnsLen, rowsLen);
            |ys| <= rowsLen &&
            (forall k :: 0 <= k < |ys| ==> ys[k] < rowsLen) &&
            (forall k, l :: 0 <= k < l < |ys| ==> ys[k] < ys[l]) &&
            (forall y :: 0 <= y < rowsLen ==> (y in ys <==> Kept(Row(s, y), columnsLen)))
  {
    var bs := Buckets(s, rowsLen);
    var ys := KeptIndices(bs, columnsLen);
    var u := Uncompleted(bs, columnsLen);
    KeptIndicesOrdered(bs, columnsLen);
    assert |ys| <= rowsLen by {
      if |ys| > 0 {
        IncreasingBound(ys, rowsLen, 0);
      }
    }
    forall y | 0 <= y < rowsLen ensures y in ys <==> Kept(Row(s, y), columnsLen) {
      assert bs[y] == Row(s, y);
      KeptIndicesSelect(bs, columnsLen);
      if y in ys {
        var k :| 0 <= k < |ys| && ys[k] == y;
        assert u[k] == bs[y];
        UncompletedKept(bs, columnsLen);
      }
    }
  }

  /** The k-th survivor lands on row rowsLen - n + k, at or below its old row. */
  lemma SurvivorPlaced(s: set<Coords>, columnsLen: nat, rowsLen: nat, k: nat)
    requires forall c :: c in s ==> c.y < rowsLen
    requires k < |SurvivingRows(s, columnsLen, rowsLen)|
    ensures var ys := SurvivingRows(s, columnsLen, rowsLen);
            var y := rowsLen - |ys| + k;
            ys[k] <= y && Kept(Row(s, ys[k]), columnsLen) &&
            Row(LinesCleared(s, columnsLen, rowsLen), y) == Relabel(Row(s, ys[k]), y)
  {
    var ys := SurvivingRows(s, columnsLen, rowsLen);
    var n := |ys|;
    assert |Buckets(s, rowsLen)| == rowsLen;
    assert n <= rowsLen && (forall i :: 0 <= i < n ==> ys[i] < rowsLen) &&
           (forall i, j :: 0 <= i < j < n ==> ys[i] < ys[j]) &&
           Kept(Row(s, ys[k]), columnsLen) by {
      SurvivorsAreKept(s, columnsLen, rowsLen);
    }
    assert ys[k] + (n - k) <= rowsLen by {
      IncreasingBound(ys, rowsLen, k);
    }
    var y := rowsLen - n + k;
    assert y - (rowsLen - n) == k;
    ClearedRow(s, columnsLen, rowsLen, y);
  }

  /** Above the n surviving rows the board is empty after a clear. */
  lemma AboveSurvivorsEmpty(s: set<Coords>, columnsLen: nat, rowsLen: nat, y: nat)
    requires forall c :: c in s ==> c.y < rowsLen
    requires y < rowsLen - |SurvivingRows(s, columnsLen, rowsLen)|
    ensures Row(LinesCleared(s, columnsLen, rowsLen), y) == {}
  {
    ClearedRow(s, columnsLen, rowsLen, y);
  }

  /** A cell left after the clear comes from a cell of a row that was not full,
      with the same column and colour and on the same row or higher up. */
  lemma ClearedCellOrigin(s: set<Coords>, columnsLen: nat, rowsLen: nat, c: Coords)
    requires forall c :: c in s ==> c.y < rowsLen
    requires c in LinesCleared(s, columnsLen, rowsLen)
    ensures exists d :: d in s && |Row(s, d.y)| != columnsLen && d.x == c.x && d.color == c.color && d.y <= c.y
  {
    var r := LinesCleared(s, columnsLen, rowsLen);
    var ys := SurvivingRows(s, columnsLen, rowsLen);
    var n := |ys|;
    assert c in Row(r, c.y);
    if c.y < rowsLen - n {
      AboveSurvivorsEmpty(s, columnsLen, rowsLen, c.y);
      assert false;
    }
    var k := c.y - (rowsLen - n);
    SurvivorPlaced(s, columnsLen, rowsLen, k);
    assert c in Relabel(Row(s, ys[k]), c.y);
    var d :| d in Row(s, ys[k]) && c == Coords(d.x, c.y, d.color);
    assert Row(s, d.y) == Row(s, ys[k]);
  }

  /** Every cell of a row that was not full is still on the board after the clear,
      in the same column with the same colour, on its row or lower down. */
  lemma SurvivingCellKept(s: set<Coords>, columnsLen: nat, rowsLen: nat, d: Coords)
    requires forall c :: c in s ==> c.y < rowsLen
    requires d in s && |Row(s, d.y)| != columnsLen
    ensures exists c :: c in LinesCleared(s, columnsLen, rowsLen) && c.x == d.x && c.color == d.color && d.y <= c.y
  {
    var r := LinesCleared(s, columnsLen, rowsLen);
    var ys := SurvivingRows(s, columnsLen, rowsLen);
    var n := |ys|;
    assert d in Row(s, d.y);
    assert d.y in ys by {
      SurvivorsAreKept(s, columnsLen, rowsLen);
    }
    var k :| 0 <= k < n && ys[k] == d.y;
    SurvivorPlaced(s, columnsLen, rowsLen, k);
    var c := Coords(d.x, rowsLen - n + k, d.color);
    assert c in Relabel(Row(s, ys[k]), rowsLen - n + k);
    assert c in Row(r, rowsLen - n + k);
  }

  /** Cell by cell, both directions: the cells after a clear are exactly the cells
      of the rows that were not full, each kept in its column with its colour and
      moved down or not at all. */
  lemma ClearLinesKeepsCells(s: set<Coords>, columnsLen: nat, rowsLen: nat)
    requires forall c :: c in s ==> c.y < rowsLen
    ensures var r := LinesCleared(s, columnsLen, rowsLen);
            (forall c :: c in r ==>
               (exists d :: d in s && |Row(s, d.y)| != columnsLen && d.x == c.x && d.color == c.color && d.y <= c.y)) &&
            (forall d :: d in s && |Row(s, d.y)| != columnsLen ==>
               (exists c :: c in r && c.x == d.x && c.color == d.color && d.y <= c.y))
  {
    forall c | c in LinesCleared(s, columnsLen, rowsLen)
      ensures exists d :: d in s && |Row(s, d.y)| != columnsLen && d.x == c.x && d.color == c.color && d.y <= c.y
    {
      ClearedCellOrigin(s, columnsLen, rowsLen, c);
    }
    forall d | d in s && |Row(s, d.y)| != columnsLen
      ensures exists c :: c in LinesCleared(s, columnsLen, rowsLen) && c.x == d.x && c.color == d.color && d.y <= c.y
    {
      SurvivingCellKept(s, columnsLen, rowsLen, d);
    }
  }

  // ---------------------------------------------------------------------------
  // Cell counts

  function SumSizes(rows: seq<set<Coords>>): nat
  {
    if rows == [] then 0 else SumSizes(rows[..|rows| - 1]) + |rows[|rows| - 1]|
  }

  function FullCount(bs: seq<set<Coords>>, columnsLen: nat): nat
  {
    if bs == [] then 0
    else FullCount(bs[..|bs| - 1], columnsLen) + (if |bs[|bs| - 1]| == columnsLen then 1 else 0)
  }

  /** The cells of `bs` that sit in buckets holding exactly `columnsLen` cells. */
  function FullSize(bs: seq<set<Coords>>, columnsLen: nat): nat
  {
    if bs == [] then 0
    else FullSize(bs[..|bs| - 1], columnsLen) + (if |bs[|bs| - 1]| == columnsLen then columnsLen else 0)
  }

  lemma {:induction false} FullSizeCount(bs: seq<set<Coords>>, columnsLen: nat)
    ensures FullSize(bs, columnsLen) == columnsLen * FullCount(bs, columnsLen)
  {
    if bs != [] {
      FullSizeCount(bs[..|bs| - 1], columnsLen);
    }
  }

  lemma {:induction false} UncompletedSum(bs: seq<set<Coords>>, columnsLen: nat)
    ensures SumSizes(bs) == SumSizes(Uncompleted(bs, columnsLen)) + FullSize(bs, columnsLen)
  {
    if bs != [] {
      var init := bs[..|bs| - 1];
      var last := bs[|bs| - 1];
      UncompletedSum(init, columnsLen);
      var u := Uncompleted(init, columnsLen);
      var v := Uncompleted(bs, columnsLen);
      assert FullSize(bs, columnsLen) == FullSize(init, columnsLen) + (if |last| == columnsLen then columnsLen else 0);
      assert SumSizes(bs) == SumSizes(init) + |last|;
      if Kept(last, columnsLen) {
        assert v == u + [last];
        assert v[..|v| - 1] == u;
        assert SumSizes(v) == SumSizes(u) + |last|;
      } else {
        assert v == u;
      }
    }
  }

  lemma RestackSplitSize(rows: seq<set<Coords>>, bottom: nat)
    requires rows != [] && |rows| <= bottom
    ensures |Restack(rows, bottom)| ==
              |Restack(rows[..|rows| - 1], bottom - 1)| + |Relabel(rows[|rows| - 1], bottom - 1)|
  {
    var a := Restack(rows[..|rows| - 1], bottom - 1);
    var b := Relabel(rows[|rows| - 1], bottom - 1);
    RestackBounds(rows[..|rows| - 1], bottom - 1);
    forall c | c in b ensures c.y == bottom - 1 {
    }
    assert a !! b;
  }

  lemma RestackSizeStep(rows: seq<set<Coords>>, bottom: nat)
    requires rows != [] && |rows| <= bottom
    requires OnOneRow(rows[|rows| - 1])
    requires |Restack(rows[..|rows| - 1], bottom - 1)| == SumSizes(rows[..|rows| - 1])
    ensures |Restack(rows, bottom)| == SumSizes(rows)
  {
    var last := rows[|rows| - 1];
    assert |Relabel(last, bottom - 1)| == |last| by {
      RelabelSize(last, bottom - 1);
    }
    RestackSplitSize(rows, bottom);
  }

  /** Restacking rows that each lie on one row keeps every cell. */
  lemma {:induction false} RestackSize(rows: seq<set<Coords>>, bottom: nat)
    requires |rows| <= bottom
    requires forall k :: 0 <= k < |rows| ==> OnOneRow(rows[k])
    ensures |Restack(rows, bottom)| == SumSizes(rows)
    decreases |rows|
  {
    if rows != [] {
      var init := rows[..|rows| - 1];
      assert |Restack(init, bottom - 1)| == SumSizes(init) by {
        forall k | 0 <= k < |init| ensures OnOneRow(init[k]) {
          assert init[k] == rows[k];
        }
        RestackSize(init, bottom - 1);
      }
      RestackSizeStep(rows, bottom);
    }
  }

  function Below(s: set<Coords>, k: nat): set<Coords>
  {
    set c | c in s && c.y < k
  }

  lemma {:induction false} BucketsSum(s: set<Coords>, rowsLen: nat, k: nat)
    requires forall c :: c in s ==> c.y < rowsLen
    requires k <= rowsLen
    ensures SumSizes(Buckets(s, rowsLen)[..k]) == |Below(s, k)|
  {
    var bs := Buckets(s, rowsLen);
    if k > 0 {
      BucketsSum(s, rowsLen, k - 1);
      assert bs[..k][..k - 1] == bs[..k - 1];
      assert Below(s, k) == Below(s, k - 1) + Row(s, k - 1);
      assert Below(s, k - 1) * Row(s, k - 1) == {};
    } else {
      assert Below(s, 0) == {};
    }
  }

  lemma {:induction false} FullCountRows(s: set<Coords>, columnsLen: nat, rowsLen: nat, k: nat)
    requires forall c :: c in s ==> c.y < rowsLen
    requires k <= rowsLen
    ensures FullCount(Buckets(s, rowsLen)[..k], columnsLen) == |FullRows(s, columnsLen, k)|
  {
    var bs := Buckets(s, rowsLen);
    if k > 0 {
      assert FullCount(bs[..k - 1], columnsLen) == |FullRows(s, columnsLen, k - 1)| by {
        FullCountRows(s, columnsLen, rowsLen, k - 1);
      }
      assert bs[..k][..k - 1] == bs[..k - 1];
      assert bs[..k][k - 1] == Row(s, k - 1);
      FullRowsStep(s, columnsLen, k);
    } else {
      assert FullRows(s, columnsLen, 0) == {};
    }
  }

  /** Extending the range by one row adds that row exactly when it is full. */
  lemma FullRowsStep(s: set<Coords>, columnsLen: nat, k: nat)
    requires k > 0
    ensures |FullRows(s, columnsLen, k)| ==
              |FullRows(s, columnsLen, k - 1)| + if |Row(s, k - 1)| == columnsLen then 1 else 0
  {
    var before := FullRows(s, columnsLen, k - 1);
    if |Row(s, k - 1)| == columnsLen {
      assert FullRows(s, columnsLen, k) == before + {k - 1};
      assert k - 1 !in before;
    } else {
      assert FullRows(s, columnsLen, k) == before;
    }
  }

  /** Clearing removes exactly `columnsLen` cells per full row and no others. */
  lemma ClearLinesCount(s: set<Coords>, columnsLen: nat, rowsLen: nat)
    requires forall c :: c in s ==> c.y < rowsLen
    ensures |LinesCleared(s, columnsLen, rowsLen)| == |s| - columnsLen * |FullRows(s, columnsLen, rowsLen)|
  {
    var bs := Buckets(s, rowsLen);
    var u := Uncompleted(bs, columnsLen);
    UncompletedSum(bs, columnsLen);
    FullSizeCount(bs, columnsLen);
    KeptIndicesSelect(bs, columnsLen);
    forall k | 0 <= k < |u| ensures OnOneRow(u[k]) {
      assert u[k] == bs[KeptIndices(bs, columnsLen)[k]];
    }
    RestackSize(u, rowsLen);
    BucketsSum(s, rowsLen, rowsLen);
    assert bs[..rowsLen] == bs;
    assert Below(s, rowsLen) == s;
    FullCountRows(s, columnsLen, rowsLen, rowsLen);
  }

  // ---------------------------------------------------------------------------
  // The cleared board

  /** After a clear no row is full, and the occupied rows are exactly the bottom
      |SurvivingRows| rows. */
  lemma ClearedRowShape(s: set<Coords>, columnsLen: nat, rowsLen: nat, y: nat)
    requires columnsLen > 0
    requires forall c :: c in s ==> c.y < rowsLen
    requires y < rowsLen
    ensures var r := LinesCleared(s, columnsLen, rowsLen);
            var n := |SurvivingRows(s, columnsLen, rowsLen)|;
            Kept(Row(r, y), columnsLen) == (y >= rowsLen - n) &&
            (Row(r, y) != {} <==> y >= rowsLen - n) &&
            |Row(r, y)| != columnsLen
  {
    var r := LinesCleared(s, columnsLen, rowsLen);
    var ys := SurvivingRows(s, columnsLen, rowsLen);
    var n := |ys|;
    if y >= rowsLen - n {
      var k := y - (rowsLen - n);
      SurvivorPlaced(s, columnsLen, rowsLen, k);
      RelabelSize(Row(s, ys[k]), y);
    } else {
      AboveSurvivorsEmpty(s, columnsLen, rowsLen, y);
    }
  }

  lemma ClearLinesCompacts(s: set<Coords>, columnsLen: nat, rowsLen: nat)
    requires columnsLen > 0
    requires forall c :: c in s ==> c.y < rowsLen
    ensures var r := LinesCleared(s, columnsLen, rowsLen);
            var n := |SurvivingRows(s, columnsLen, rowsLen)|;
            forall y :: 0 <= y < rowsLen ==>
              Kept(Row(r, y), columnsLen) == (y >= rowsLen - n) &&
              (Row(r, y) != {} <==> y >= rowsLen - n) &&
              |Row(r, y)| != columnsLen
  {
    forall y | 0 <= y < rowsLen
      ensures var r := LinesCleared(s, columnsLen, rowsLen);
              var n := |SurvivingRows(s, columnsLen, rowsLen)|;
              Kept(Row(r, y), columnsLen) == (y >= rowsLen - n) &&
              (Row(r, y) != {} <==> y >= rowsLen - n) &&
              |Row(r, y)| != columnsLen
    {
      ClearedRowShape(s, columnsLen, rowsLen, y);
    }
  }

  // ---------------------------------------------------------------------------
  // Clearing twice

  /** The j-th element of a strictly increasing sequence that holds exactly the
      numbers lo .. hi-1 is lo + j. */
  lemma {:induction false} RunAt(ys: seq<nat>, lo: nat, hi: nat, j: nat)
    requires forall i, k :: 0 <= i < k < |ys| ==> ys[i] < ys[k]
    requires forall i :: 0 <= i < |ys| ==> lo <= ys[i] < hi
    requires forall y :: lo <= y < hi ==> y in ys
    requires j < |ys|
    ensures ys[j] == lo + j
  {
    if j == 0 {
      assert lo in ys;
    } else {
      RunAt(ys, lo, hi, j - 1);
      assert lo + j < hi ==> lo + j in ys;
    }
  }

  /** A strictly increasing sequence that holds exactly the numbers lo .. hi-1 is
      that run: hi - lo long, with lo + j at position j. */
  lemma ExactRun(ys: seq<nat>, lo: nat, hi: nat)
    requires lo <= hi
    requires forall i, k :: 0 <= i < k < |ys| ==> ys[i] < ys[k]
    requires forall i :: 0 <= i < |ys| ==> lo <= ys[i] < hi
    requires forall y :: lo <= y < hi ==> y in ys
    ensures |ys| == hi - lo
    ensures forall j :: 0 <= j < |ys| ==> ys[j] == lo + j
  {
    forall j | 0 <= j < |ys| ensures ys[j] == lo + j {
      RunAt(ys, lo, hi, j);
    }
    if |ys| > 0 {
      assert ys[|ys| - 1] == lo + |ys| - 1;
    }
    assert lo + |ys| < hi ==> lo + |ys| in ys;
  }

  /** A board whose occupied rows are the bottom n rows, none of them full, has
      exactly those rows as its survivors. */
  lemma CompactSurvivors(r: set<Coords>, columnsLen: nat, rowsLen: nat, n: nat)
    requires n <= rowsLen
    requires forall c :: c in r ==> c.y < rowsLen
    requires forall y :: 0 <= y < rowsLen ==> (Kept(Row(r, y), columnsLen) <==> y >= rowsLen - n)
    ensures var ys := SurvivingRows(r, columnsLen, rowsLen);
            |ys| == n && forall j :: 0 <= j < n ==> ys[j] == rowsLen - n + j
  {
    var ys := SurvivingRows(r, columnsLen, rowsLen);
    assert |Buckets(r, rowsLen)| == rowsLen;
    assert (forall i :: 0 <= i < |ys| ==> ys[i] < rowsLen) &&
           (forall i, k :: 0 <= i < k < |ys| ==> ys[i] < ys[k]) &&
           (forall y :: 0 <= y < rowsLen ==> (y in ys <==> Kept(Row(r, y), columnsLen))) by {
      SurvivorsAreKept(r, columnsLen, rowsLen);
    }
    forall i | 0 <= i < |ys| ensures rowsLen - n <= ys[i] < rowsLen {
      assert ys[i] in ys;
    }
    ExactRun(ys, rowsLen - n, rowsLen);
  }

  /** The cells of one row, moved onto that same row, are unchanged. */
  lemma RelabelInPlace(r: set<Coords>, y: nat)
    ensures Relabel(Row(r, y), y) == Row(r, y)
  {
    forall c | c in Row(r, y) ensures c in Relabel(Row(r, y), y) {
      assert c == Coords(c.x, y, c.color);
    }
  }

  /** Clearing a board whose occupied rows are the bottom n rows, none of them
      full, changes nothing. */
  lemma ClearCompactUnchanged(r: set<Coords>, columnsLen: nat, rowsLen: nat, n: nat)
    requires n <= rowsLen
    requires forall c :: c in r ==> c.y < rowsLen
    requires forall y :: 0 <= y < rowsLen ==> (Kept(Row(r, y), columnsLen) <==> y >= rowsLen - n)
    requires forall y :: 0 <= y < rowsLen - n ==> Row(r, y) == {}
    ensures LinesCleared(r, columnsLen, rowsLen) == r
  {
    var r2 := LinesCleared(r, columnsLen, rowsLen);
    CompactSurvivors(r, columnsLen, rowsLen, n);
    forall y: nat ensures Row(r2, y) == Row(r, y) {
      if y >= rowsLen {
        assert Row(r2, y) == {};
        assert Row(r, y) == {};
      } else if y >= rowsLen - n {
        SurvivorPlaced(r, columnsLen, rowsLen, y - (rowsLen - n));
        RelabelInPlace(r, y);
      } else {
        AboveSurvivorsEmpty(r, columnsLen, rowsLen, y);
      }
    }
    SameRows(r2, r);
  }

  /** Clearing is idempotent: once the completed lines are gone, a second clear
      changes nothing. */
  lemma ClearLinesIdempotent(s: set<Coords>, columnsLen: nat, rowsLen: nat)
    requires columnsLen > 0
    requires forall c :: c in s ==> c.y < rowsLen
    ensures LinesCleared(LinesCleared(s, columnsLen, rowsLen), columnsLen, rowsLen) ==
              LinesCleared(s, columnsLen, rowsLen)
  {
    var r := LinesCleared(s, columnsLen, rowsLen);
    var n := |SurvivingRows(s, columnsLen, rowsLen)|;
    assert n <= rowsLen by {
      SurvivorsAreKept(s, columnsLen, rowsLen);
    }
    forall y | 0 <= y < rowsLen
      ensures Kept(Row(r, y), columnsLen) <==> y >= rowsLen - n
      ensures y < rowsLen - n ==> Row(r, y) == {}
    {
      ClearedRowShape(s, columnsLen, rowsLen, y);
    }
    ClearCompactUnchanged(r, columnsLen, rowsLen, n);
  }

  // ---------------------------------------------------------------------------
  // The board invariant

  /** Clearing keeps the settled cells on the board and keeps their positions
      distinct. */
  lemma ClearLinesKeepsBoard(s: set<Coords>, columnsLen: nat, rowsLen: nat)
    requires InBounds(s, columnsLen, rowsLen)
    requires UniquePositions(s)
    ensures InBounds(LinesCleared(s, columnsLen, rowsLen), columnsLen, rowsLen)
    ensures UniquePositions(LinesCleared(s, columnsLen, rowsLen))
  {
    var r := LinesCleared(s, columnsLen, rowsLen);
    forall c | c in r ensures c.x < columnsLen {
      ClearedCellOrigin(s, columnsLen, rowsLen, c);
    }
    forall c, d | c in r && d in r && c.x == d.x && c.y == d.y ensures c == d {
      ClearedSamePosition(s, columnsLen, rowsLen, c, d);
    }
  }

  lemma ClearedSamePosition(s: set<Coords>, columnsLen: nat, rowsLen: nat, c: Coords, d: Coords)
    requires InBounds(s, columnsLen, rowsLen)
    requires UniquePositions(s)
    requires c in LinesCleared(s, columnsLen, rowsLen) && d in LinesCleared(s, columnsLen, rowsLen)
    requires c.x == d.x && c.y == d.y
    ensures c == d
  {
    var r := LinesCleared(s, columnsLen, rowsLen);
    var ys := SurvivingRows(s, columnsLen, rowsLen);
    var n := |ys|;
    assert c in Row(r, c.y) && d in Row(r, c.y);
    if c.y < rowsLen - n {
      AboveSurvivorsEmpty(s, columnsLen, rowsLen, c.y);
      assert false;
    }
    var k := c.y - (rowsLen - n);
    SurvivorPlaced(s, columnsLen, rowsLen, k);
    var c0 :| c0 in Row(s, ys[k]) && c == Coords(c0.x, c.y, c0.color);
    var d0 :| d0 in Row(s, ys[k]) && d == Coords(d0.x, c.y, d0.color);
    assert c0 == d0;
  }
}
