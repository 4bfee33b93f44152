/** `IndexedRowTable`: the rows stored row-major in one flat buffer of ints,
    cell `(rowId, colId)` at offset `rowId * numCols + colId`, with a
    secondary index from the values of column `indexColumn` to the ids of
    the rows that hold them. */
module IndexedTable {
  import opened Common
  import opened Bits
  import opened Queries
  import opened IndexedRows

  class IndexedRowTable {
    const indexColumn: nat
    var numCols: nat
    var numRows: nat
    /** The row-major buffer. */
    var cells: array<int>
    /** Value of column `indexColumn` -> ids of the rows that hold it. */
    var index: map<int, seq<int>>
    /** The rows the buffer holds. */
    ghost var rows: seq<seq<int>>

    /** The buffer holds `rows`, and every row has the table's width (at
        least col0 .. col3, which the queries read). */
    ghost predicate Stored()
      reads this`numCols, this`numRows, this`cells, this`rows, cells
    {
      4 <= numCols && indexColumn < numCols && |rows| == numRows && Mirrors(cells[..], rows, numCols)
    }

    /** ... and the index is exact. */
    ghost predicate Valid()
      reads this`numCols, this`numRows, this`cells, this`rows, this`index, cells
    {
      Stored() && Indexed(Column(rows, indexColumn), index)
    }

    constructor (indexColumn: nat)
      ensures this.indexColumn == indexColumn && numRows == 0 && index == map[]
    {
      this.indexColumn := indexColumn;
      numCols, numRows := 0, 0;
      cells := new int[0];
      index := map[];
      rows := [];
    }

    /** `load`: copy every row into the buffer, field by field, and add its
        id to the index under its value in the indexed column. */
    method Load(table: seq<seq<int>>, numCols: nat)
      requires 4 <= numCols && indexColumn < numCols
      requires forall r :: 0 <= r < |table| ==> |table[r]| == numCols
      modifies this
      ensures Valid() && rows == table && numRows == |table| && this.numCols == numCols
      ensures index == IndexOf(Column(table, indexColumn)) && Ascending(index)
    {
      var flat, idx := LoadCells(table, numCols, indexColumn);
      IndexOfIndexed(Column(table, indexColumn));
      this.numCols, numRows := numCols, |table|;
      cells, index, rows := flat, idx, table;
    }

    /** `getIntField`: the field at row `rowId`, column `colId`. */
    method GetIntField(rowId: nat, colId: nat) returns (field: int)
      requires Stored() && rowId < numRows && colId < numCols
      ensures field == rows[rowId][colId]
    {
      ScaledIsProduct(rowId, numCols);
      assert Offset(rowId, colId, numCols) < cells.Length && cells[Offset(rowId, colId, numCols)] == rows[rowId][colId];
      field := cells[rowId * numCols + colId];
    }

    /** `putIntField`: a put on the indexed column first moves the row id from
        the list of its old value to the end of the list of the new one;
        then the one cell is overwritten. */
    method PutIntField(rowId: nat, colId: nat, field: int)
      requires Valid() && rowId < numRows && colId < numCols
      modifies this`rows, this`index, cells
      ensures Valid()
      ensures rows == old(rows)[rowId := old(rows)[rowId][colId := field]]
      ensures colId == indexColumn ==> old(rows)[rowId][colId] in old(index)
                                       && index == Reindex(old(index), old(rows)[rowId][colId], rowId, field)
      ensures colId != indexColumn ==> index == old(index)
    {
      if colId == indexColumn {
        MoveIndexEntry(rowId, field);
      }
      ColumnWrite(rows, indexColumn, rowId, colId, field);
      WriteMirrors(cells[..], rows, numCols, rowId, colId, field);
      ScaledIsProduct(rowId, numCols);
      cells[rowId * numCols + colId] := field;
      rows := rows[rowId := rows[rowId][colId := field]];
    }

    /** The index side of a put on the indexed column: the row id leaves the
        list of its old value (`rem` drops its first occurrence) and is
        appended to the list of the new one, created empty when missing. */
    method MoveIndexEntry(rowId: nat, field: int)
      requires Valid() && rowId < numRows
      modifies this`index
      ensures rows[rowId][indexColumn] in old(index)
      ensures index == Reindex(old(index), rows[rowId][indexColumn], rowId, field)
      ensures Indexed(Column(rows, indexColumn)[rowId := field], index)
    {
      var was := GetIntField(rowId, indexColumn);
      ReindexKeeps(Column(rows, indexColumn), index, rowId, field);
      var list := index[was];
      list := Rem(list, rowId);
      index := index[was := list];
      index := AddToIndex(index, field, rowId);
    }

    /** `columnSum`: col0 added up over every row. */
    method ColumnSum() returns (sum: int)
      requires Valid()
      ensures sum == Total(rows, KeySum, numRows)
    {
      sum := 0;
      var rowId := 0;
      while rowId < numRows
        invariant 0 <= rowId <= numRows
        invariant sum == Total(rows, KeySum, rowId)
      {
        var field := GetIntField(rowId, 0);
        sum := sum + field;
        rowId := rowId + 1;
      }
    }

    /** `predicatedColumnSum`: with the index on col1, the rows of the keys
        above `t1`; with the index on col2, the rows of the keys below `t2`;
        otherwise a scan of every row. */
    method PredicatedColumnSum(t1: int, t2: int) returns (sum: int)
      requires Valid()
      ensures sum == Total(rows, MatchedKeySum(t1, t2), numRows)
    {
      if indexColumn == 1 {
        sum := MatchedViaCol1(t1, t2);
      } else if indexColumn == 2 {
        sum := MatchedViaCol2(t1, t2);
      } else {
        sum := 0;
        var rowId := 0;
        while rowId < numRows
          invariant 0 <= rowId <= numRows
          invariant sum == Total(rows, MatchedKeySum(t1, t2), rowId)
        {
          var col1 := GetIntField(rowId, 1);
          var col2 := GetIntField(rowId, 2);
          if col1 > t1 && col2 < t2 {
            var col0 := GetIntField(rowId, 0);
            sum := sum + col0;
          }
          rowId := rowId + 1;
        }
      }
    }

    /** The col1 index: every key above `t1`, and of its rows those whose
        col2 is below `t2`. */
    method MatchedViaCol1(t1: int, t2: int) returns (sum: int)
      requires Valid() && indexColumn == 1
      ensures sum == Total(rows, MatchedKeySum(t1, t2), numRows)
    {
      ghost var vals := Column(rows, 1);
      var keys := set v | v in index && v > t1;
      ghost var done: set<int> := {};
      sum := 0;
      assert IdsWith(vals, done) == {};
      SumWhereNone(rows, MatchedKeySum(t1, t2), numRows);
      while keys != {}
        invariant keys <= index.Keys && keys !! done
        invariant forall v :: v in index && v > t1 ==> v in keys || v in done
        invariant forall v :: v in done ==> v in index && v > t1
        invariant sum == SumWhere(rows, MatchedKeySum(t1, t2), IdsWith(vals, done), numRows)
        decreases keys
      {
        var v :| v in keys;
        var list := index[v];
        var i := 0;
        ghost var before := sum;
        while i < |list|
          invariant 0 <= i <= |list|
          invariant sum == before + SumIds(rows, MatchedKeySum(t1, t2), list[..i])
        {
          var row := list[i];
          assert row in index[v];
          var col0 := GetIntField(row, 0);
          var col2 := GetIntField(row, 2);
          if col2 < t2 {
            sum := sum + col0;
          }
          SumIdsStep(rows, MatchedKeySum(t1, t2), list, i);
          i := i + 1;
        }
        assert list[..|list|] == list;
        KeyStep(rows, MatchedKeySum(t1, t2), vals, index, done, v);
        keys, done := keys - {v}, done + {v};
      }
      KeysCover(rows, MatchedKeySum(t1, t2), vals, index, done);
    }

    /** The col2 index: every key below `t2`, and of its rows those whose
        col1 is above `t1`. */
    method MatchedViaCol2(t1: int, t2: int) returns (sum: int)
      requires Valid() && indexColumn == 2
      ensures sum == Total(rows, MatchedKeySum(t1, t2), numRows)
    {
      ghost var vals := Column(rows, 2);
      var keys := set v | v in index && v < t2;
      ghost var done: set<int> := {};
      sum := 0;
      assert IdsWith(vals, done) == {};
      SumWhereNone(rows, MatchedKeySum(t1, t2), numRows);
      while keys != {}
        invariant keys <= index.Keys && keys !! done
        invariant forall v :: v in index && v < t2 ==> v in keys || v in done
        invariant forall v :: v in done ==> v in index && v < t2
        invariant sum == SumWhere(rows, MatchedKeySum(t1, t2), IdsWith(vals, done), numRows)
        decreases keys
      {
        var v :| v in keys;
        var list := index[v];
        var i := 0;
        ghost var before := sum;
        while i < |list|
          invariant 0 <= i <= |list|
          invariant sum == before + SumIds(rows, MatchedKeySum(t1, t2), list[..i])
        {
          var row := list[i];
          assert row in index[v];
          var col0 := GetIntField(row, 0);
          var col1 := GetIntField(row, 1);
          if col1 > t1 {
            sum := sum + col0;
          }
          SumIdsStep(rows, MatchedKeySum(t1, t2), list, i);
          i := i + 1;
        }
        assert list[..|list|] == list;
        KeyStep(rows, MatchedKeySum(t1, t2), vals, index, done, v);
        keys, done := keys - {v}, done + {v};
      }
      KeysCover(rows, MatchedKeySum(t1, t2), vals, index, done);
    }

    /** `predicatedAllColumnsSum`: every field of each row whose col0 is
        above `t`, read cell by cell along the row. */
    method PredicatedAllColumnsSum(t: int) returns (sum: int)
      requires Stored()
      ensures sum == Total(rows, FieldSumAbove(t), numRows)
    {
      sum := 0;
      var rowId := 0;
      while rowId < numRows
        invariant 0 <= rowId <= numRows
        invariant sum == Total(rows, FieldSumAbove(t), rowId)
      {
        var col0 := GetIntField(rowId, 0);
        if col0 > t {
          var fields := RowSum(rowId);
          sum := sum + fields;
        }
        rowId := rowId + 1;
      }
    }

    /** The fields of row `rowId` added up, from its first cell to its last. */
    method RowSum(rowId: nat) returns (sum: int)
      requires Stored() && rowId < numRows
      ensures sum == Sum(rows[rowId])
    {
      OffsetInRange(rowId, 0, numRows, numCols);
      ScaledIsProduct(rowId, numCols);
      var start := rowId * numCols;
      var offset := start;
      sum := 0;
      while offset < start + numCols
        invariant start <= offset <= start + numCols
        invariant sum == Sum(rows[rowId][..offset - start])
      {
        assert cells[Offset(rowId, offset - start, numCols)] == rows[rowId][offset - start];
        SumSliceStep(rows[rowId], 0, offset - start);
        sum := sum + cells[offset];
        offset := offset + 1;
      }
      assert rows[rowId][..numCols] == rows[rowId];
    }

    /** `predicatedUpdate`: `col3 = col3 + col2` on every row whose col0 is
        below `t`, returning how many rows that is. With the index on col0
        the rows come from the keys below `t`, updated through
        `PutIntField`; otherwise a scan writes the cells directly, and with
        the index on col3 the index is then built again from scratch. */
    method PredicatedUpdate(t: int) returns (count: int)
      requires Valid()
      modifies this`rows, this`index, cells
      ensures Valid()
      ensures rows == Updated(old(rows), t)
      ensures count == Total(old(rows), CountBelow(t), numRows)
      ensures indexColumn != 3 ==> index == old(index)
      ensures indexColumn == 3 ==> index == IndexOf(Column(rows, 3))
    {
      if indexColumn == 0 {
        count := UpdateViaCol0(t);
      } else if indexColumn == 3 {
        count := UpdateScan(t);
        RebuildIndex();
      } else {
        ghost var before := rows;
        count := UpdateScan(t);
        UpdatedColumn(before, t, indexColumn);
      }
    }

    /** The col0 index: every row of every key below `t`. */
    method UpdateViaCol0(t: int) returns (count: int)
      requires Valid() && indexColumn == 0
      modifies this`rows, cells
      ensures Valid()
      ensures rows == Updated(old(rows), t)
      ensures count == Total(old(rows), CountBelow(t), numRows)
    {
      count := UpdateKeysBelow(cells, index, rows, numCols, t);
      UpdatedColumn(rows, t, 0);
      rows := Updated(rows, t);
    }

    /** The scan of `predicatedUpdate`; the index is not touched. */
    method UpdateScan(t: int) returns (count: int)
      requires Stored()
      modifies this`rows, cells
      ensures Stored()
      ensures rows == Updated(old(rows), t)
      ensures count == Total(old(rows), CountBelow(t), numRows)
    {
      count := ScanCells(cells, rows, numCols, numRows, t);
      rows := Updated(rows, t);
    }

    /** Building the col3 index again after the scan changed col3: every row
        id, in row order, under its col3 value. */
    method RebuildIndex()
      requires Stored() && indexColumn == 3
      modifies this`index
      ensures Valid() && rows == old(rows)
      ensures index == IndexOf(Column(rows, 3))
    {
      var idx := map[];
      var row := 0;
      while row < numRows
        invariant 0 <= row <= numRows
        invariant idx == IndexOf(Column(rows[..row], 3))
        modifies {}
      {
        var indexed := GetIntField(row, 3);
        ColumnPrefix(rows, 3, row);
        idx := AddToIndex(idx, indexed, row);
        row := row + 1;
      }
      assert rows[..numRows] == rows;
      IndexOfIndexed(Column(rows, 3));
      index := idx;
    }
  }

  /** The loop of `load`: a fresh buffer holding `table` row-major, and the
      index built by adding each row, in row order, under its value in
      column `col`. */
  method LoadCells(table: seq<seq<int>>, w: nat, col: nat) returns (flat: array<int>, idx: map<int, seq<int>>)
    requires col < w && forall r :: 0 <= r < |table| ==> |table[r]| == w
    ensures fresh(flat) && Mirrors(flat[..], table, w) && idx == IndexOf(Column(table, col))
  {
    var n := |table|;
    ScaledIsProduct(n, w);
    flat := new int[n * w];
    idx := map[];
    var rowId, base := 0, 0;
    while rowId < n
      invariant 0 <= rowId <= n && flat.Length == Scaled(n, w)
      invariant base == Scaled(rowId, w) && 0 <= base <= flat.Length
      invariant Mirrors(flat[..base], table[..rowId], w)
      invariant idx == IndexOf(Column(table[..rowId], col))
    {
      OffsetInRange(rowId, 0, n, w);
      StoreRow(flat, table, rowId, w, base);
      ColumnPrefix(table, col, rowId);
      idx := AddToIndex(idx, table[rowId][col], rowId);
      rowId, base := rowId + 1, base + w;
    }
    assert table[..n] == table;
    assert flat[..Scaled(n, w)] == flat[..];
  }

  /** The loop of the scan of `predicatedUpdate`: each row whose col0 is
      below `t` gets `col3 + col2` written straight into its col3 cell. */
  method ScanCells(cells: array<int>, ghost rows0: seq<seq<int>>, w: nat, n: nat, t: int) returns (count: int)
    requires 4 <= w && |rows0| == n && Mirrors(cells[..], rows0, w)
    modifies cells
    ensures Mirrors(cells[..], Updated(rows0, t), w)
    ensures count == Total(rows0, CountBelow(t), n)
  {
    ghost var cur := rows0;
    count := 0;
    var rowId := 0;
    while rowId < n
      invariant 0 <= rowId <= n && forall r :: 0 <= r < n ==> |rows0[r]| == w
      invariant cur == UpdatedBefore(rows0, t, rowId) && Mirrors(cells[..], cur, w)
      invariant count == Total(rows0, CountBelow(t), rowId)
    {
      UpdatedBeforeStep(rows0, t, rowId);
      CountStep(rows0, t, rowId);
      var hit := ScanRow(cells, cur, w, rowId, t);
      if hit {
        cur := cur[rowId := Bump(cur[rowId])];
        count := count + 1;
      }
      rowId := rowId + 1;
    }
    if n > 0 {
      UpdatedBeforeStep(rows0, t, 0);
    }
  }

  /** One row of that scan: whether its col0 is below `t`, and if so its
      col3 cell rewritten. */
  method ScanRow(cells: array<int>, ghost cur: seq<seq<int>>, w: nat, rowId: nat, t: int) returns (hit: bool)
    requires 4 <= w && rowId < |cur| && Mirrors(cells[..], cur, w)
    modifies cells
    ensures hit == (cur[rowId][0] < t)
    ensures hit ==> Mirrors(cells[..], cur[rowId := Bump(cur[rowId])], w)
    ensures !hit ==> cells[..] == old(cells[..])
  {
    ScaledIsProduct(rowId, w);
    var base := rowId * w;
    assert cells[Offset(rowId, 0, w)] == cur[rowId][0];
    hit := cells[base] < t;
    if hit {
      BumpCell(cells, cur, w, rowId);
    }
  }

  /** `col3 = col3 + col2` on row `rowId` of the buffer. */
  method BumpCell(cells: array<int>, ghost cur: seq<seq<int>>, w: nat, rowId: nat)
    requires 4 <= w && rowId < |cur| && Mirrors(cells[..], cur, w)
    modifies cells
    ensures Mirrors(cells[..], cur[rowId := Bump(cur[rowId])], w)
  {
    ScaledIsProduct(rowId, w);
    var base := rowId * w;
    assert cells[Offset(rowId, 2, w)] == cur[rowId][2] && cells[Offset(rowId, 3, w)] == cur[rowId][3];
    var field := cells[base + 3] + cells[base + 2];
    WriteMirrors(cells[..], cur, w, rowId, 3, field);
    cells[base + 3] := field;
  }

  /** The loop of `predicatedUpdate` on a table indexed on col0: the rows of
      every key below `t`, each updated through `putIntField` on col3, which
      only writes the cell since col3 is not the indexed column. */
  method UpdateKeysBelow(cells: array<int>, index: map<int, seq<int>>, ghost rows0: seq<seq<int>>, w: nat, t: int)
    returns (count: int)
    requires 4 <= w && Mirrors(cells[..], rows0, w) && Indexed(Column(rows0, 0), index)
    modifies cells
    ensures Mirrors(cells[..], Updated(rows0, t), w)
    ensures count == Total(rows0, CountBelow(t), |rows0|)
  {
    ghost var vals := Column(rows0, 0);
    var keys := set v | v in index && v < t;
    ghost var done: set<int> := {};
    count := 0;
    assert IdsWith(vals, done) == {};
    SumWhereNone(rows0, CountBelow(t), |rows0|);
    assert UpdatedIn(rows0, {}) == rows0;
    while keys != {}
      invariant forall r :: 0 <= r < |rows0| ==> |rows0[r]| == w
      invariant keys <= index.Keys && keys !! done
      invariant forall v :: v in index && v < t ==> v in keys || v in done
      invariant forall v :: v in done ==> v < t
      invariant Mirrors(cells[..], UpdatedIn(rows0, IdsWith(vals, done)), w)
      invariant count == SumWhere(rows0, CountBelow(t), IdsWith(vals, done), |rows0|)
      decreases keys
    {
      var v :| v in keys;
      var n := UpdateKey(cells, index, rows0, w, t, done, v);
      count := count + n;
      keys, done := keys - {v}, done + {v};
    }
    KeysBelowUpdate(rows0, index, done, t);
  }

  /** The rows of the list of key `v`, each updated and counted. */
  method UpdateKey(cells: array<int>, index: map<int, seq<int>>, ghost rows0: seq<seq<int>>, w: nat, t: int,
                   ghost done: set<int>, v: int) returns (n: int)
    requires 4 <= w && forall r :: 0 <= r < |rows0| ==> |rows0[r]| == w
    requires Indexed(Column(rows0, 0), index) && v in index && v !in done && v < t
    requires Mirrors(cells[..], UpdatedIn(rows0, IdsWith(Column(rows0, 0), done)), w)
    modifies cells
    ensures Mirrors(cells[..], UpdatedIn(rows0, IdsWith(Column(rows0, 0), done + {v})), w)
    ensures SumWhere(rows0, CountBelow(t), IdsWith(Column(rows0, 0), done + {v}), |rows0|)
            == SumWhere(rows0, CountBelow(t), IdsWith(Column(rows0, 0), done), |rows0|) + n
  {
    ghost var vals := Column(rows0, 0);
    KeyRowsFresh(vals, index, done, v);
    n := UpdateList(cells, index[v], rows0, w, t, IdsWith(vals, done));
  }

  /** The rows of one list of that index, each updated and counted. */
  method UpdateList(cells: array<int>, list: seq<int>, ghost rows0: seq<seq<int>>, w: nat, t: int, ghost seen: set<int>)
    returns (n: int)
    requires 4 <= w && forall r :: 0 <= r < |rows0| ==> |rows0[r]| == w
    requires Distinct(list) && forall r :: r in list ==> 0 <= r < |rows0| && rows0[r][0] < t && r !in seen
    requires Mirrors(cells[..], UpdatedIn(rows0, seen), w)
    modifies cells
    ensures Mirrors(cells[..], UpdatedIn(rows0, seen + Elems(list)), w)
    ensures SumWhere(rows0, CountBelow(t), seen + Elems(list), |rows0|) == SumWhere(rows0, CountBelow(t), seen, |rows0|) + n
  {
    n := 0;
    var i := 0;
    assert seen + Elems(list[..0]) == seen;
    while i < |list|
      invariant 0 <= i <= |list|
      invariant Mirrors(cells[..], UpdatedIn(rows0, seen + Elems(list[..i])), w)
      invariant SumWhere(rows0, CountBelow(t), seen + Elems(list[..i]), |rows0|)
                == SumWhere(rows0, CountBelow(t), seen, |rows0|) + n
    {
      var row := list[i];
      assert row in list;
      ghost var done := seen + Elems(list[..i]);
      ListStep(rows0, t, seen, list, i, done);
      BumpCell(cells, UpdatedIn(rows0, done), w, row);
      n := n + 1;
      i := i + 1;
    }
    assert list[..|list|] == list;
  }

  /** One row of `load` stored after the rows before it. */
  method StoreRow(flat: array<int>, table: seq<seq<int>>, rowId: nat, w: nat, base: nat)
    requires rowId < |table| && |table[rowId]| == w && base == Scaled(rowId, w) && base + w <= flat.Length
    requires Mirrors(flat[..base], table[..rowId], w)
    modifies flat
    ensures Mirrors(flat[..base + w], table[..rowId + 1], w)
  {
    CopyRow(flat, base, table[rowId]);
    LoadStep(flat[..], table, rowId, w);
  }

  /** Copy one row's fields, in column order, into the buffer from `base` on. */
  method CopyRow(a: array<int>, base: nat, row: seq<int>)
    requires base + |row| <= a.Length
    modifies a
    ensures a[..base] == old(a[..base]) && a[base..base + |row|] == row
  {
    var colId := 0;
    while colId < |row|
      invariant 0 <= colId <= |row|
      invariant a[..base] == old(a[..base])
      invariant a[base..base + colId] == row[..colId]
    {
      a[base + colId] := row[colId];
      colId := colId + 1;
    }
  }
}
