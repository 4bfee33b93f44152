/** The five parallel per-bucket columns of a partition, as values, and the
    two structural edits the partition makes to them: appending a row to a
    bucket, and deleting a slot by moving the bucket's last row into it. The
    lemmas here show that both edits keep the columns in step with the logical
    rows and keep each bucket's brute-force total in step with its edits. */
module BucketColumns {
  import opened Common
  import opened Bits
  import opened BucketIndex
  import opened SlotSums
  import opened Queries

  /** Per bucket: row ids, col1 (shorts), col2, col3, and the overflow columns
      col4 .. as one row of shorts per slot. */
  datatype Columns = Columns(ids: seq<seq<int>>, c1: seq<seq<int>>, c2: seq<seq<int>>, c3: seq<seq<int>>,
                             rest: seq<seq<seq<int>>>)

  /** `nb` buckets with no rows, as the loader allocates them. */
  function EmptyColumns(nb: nat): (cs: Columns)
    ensures |cs.ids| == nb && |cs.c1| == nb && |cs.c2| == nb && |cs.c3| == nb && |cs.rest| == nb
  {
    Columns(seq(nb, b => []), seq(nb, b => []), seq(nb, b => []), seq(nb, b => []), seq(nb, b => []))
  }

  /** One bucket's five parallel columns: equal lengths within the capacity,
      col1, col2 and the overflow columns holding shorts, each overflow row `w` wide. */
  predicate BucketLayout(ids: seq<int>, c1: seq<int>, c2: seq<int>, c3: seq<int>, rest: seq<seq<int>>, cap: int, w: nat) {
    && |c1| == |ids| && |c2| == |ids| && |c3| == |ids| && |rest| == |ids| && |ids| <= cap
    && AllShorts(c1) && AllShorts(c2)
    && (forall o :: 0 <= o < |rest| ==> |rest[o]| == w && AllShorts(rest[o]))
  }

  /** `nb` buckets, each laid out within its capacity. */
  predicate Shaped(cs: Columns, nb: nat, caps: seq<int>, w: nat) {
    && |cs.ids| == nb && |cs.c1| == nb && |cs.c2| == nb && |cs.c3| == nb && |cs.rest| == nb && |caps| == nb
    && (forall b {:trigger BucketLayout(cs.ids[b], cs.c1[b], cs.c2[b], cs.c3[b], cs.rest[b], caps[b], w)} ::
          0 <= b < nb ==> BucketLayout(cs.ids[b], cs.c1[b], cs.c2[b], cs.c3[b], cs.rest[b], caps[b], w))
  }

  /** Slot `(b, o)` exists in all five columns. */
  predicate Fits(cs: Columns, b: int, o: int) {
    && 0 <= b < |cs.ids| && b < |cs.c1| && b < |cs.c2| && b < |cs.c3| && b < |cs.rest|
    && 0 <= o < |cs.ids[b]| && o < |cs.c1[b]| && o < |cs.c2[b]| && o < |cs.c3[b]| && o < |cs.rest[b]|
  }

  /** The logical row held in slot `(b, o)` of a bucket whose rows have key `key`. */
  function Row(cs: Columns, key: int, b: int, o: int): (row: seq<int>)
    requires Fits(cs, b, o)
    ensures |row| == 4 + |cs.rest[b][o]| && row[0] == key && row[4..] == cs.rest[b][o]
  {
    [key, cs.c1[b][o], cs.c2[b][o], cs.c3[b][o]] + cs.rest[b][o]
  }

  /** Slot `(b, o)` holds row `r`, and `r` is the logical row `row` with the bucket's key. */
  predicate Holds(cs: Columns, ci: seq<int>, p: int, idx: int, r: int, row: seq<int>)
  {
    && 0 <= 2 * r && 2 * r + 1 < |ci| && Fits(cs, ci[2 * r], ci[2 * r + 1])
    && cs.ids[ci[2 * r]][ci[2 * r + 1]] == r
    && row == Row(cs, Scaled(ci[2 * r], p) + idx, ci[2 * r], ci[2 * r + 1])
  }

  /** The logical rows are exactly the rows the index marks as present, each
      stored in the slot its index entry names. */
  predicate Mirrors(rows: map<int, seq<int>>, cs: Columns, ci: seq<int>, n: nat, p: int, idx: int)
    requires |ci| == 2 * n
  {
    && (forall r: nat :: r < n ==> (r in rows <==> ci[2 * r] >= 0))
    && (forall r :: r in rows ==> 0 <= r < n)
    && (forall r {:trigger Holds(cs, ci, p, idx, r, rows[r])} :: r in rows ==> Holds(cs, ci, p, idx, r, rows[r]))
  }

  /** Append a row to the end of bucket `b` (the five `push` calls). */
  function Push(cs: Columns, b: int, r: int, x1: int, x2: int, x3: int, xr: seq<int>): Columns
    requires 0 <= b < |cs.ids| && b < |cs.c1| && b < |cs.c2| && b < |cs.c3| && b < |cs.rest|
  {
    Columns(cs.ids[b := cs.ids[b] + [r]], cs.c1[b := cs.c1[b] + [x1]], cs.c2[b := cs.c2[b] + [x2]],
            cs.c3[b := cs.c3[b] + [x3]], cs.rest[b := cs.rest[b] + [xr]])
  }

  /** Delete slot `(b, o)` by moving the bucket's last row into it, in all five columns. */
  function Delete(cs: Columns, b: int, o: int): Columns
    requires Fits(cs, b, o)
    requires |cs.c1[b]| == |cs.ids[b]| && |cs.c2[b]| == |cs.ids[b]| && |cs.c3[b]| == |cs.ids[b]| && |cs.rest[b]| == |cs.ids[b]|
  {
    Columns(cs.ids[b := DeleteSwap(cs.ids[b], o)], cs.c1[b := DeleteSwap(cs.c1[b], o)], cs.c2[b := DeleteSwap(cs.c2[b], o)],
            cs.c3[b := DeleteSwap(cs.c3[b], o)], cs.rest[b := DeleteSwap(cs.rest[b], o)])
  }

  /** Brute-force sum of every field, the key included, of the rows in bucket `b`. */
  function BucketTotal(cs: Columns, b: int, key: int): int
    requires 0 <= b < |cs.ids| && b < |cs.c1| && b < |cs.c2| && b < |cs.c3| && b < |cs.rest|
  {
    Scaled(|cs.ids[b]|, key) + Sum(cs.c1[b]) + Sum(cs.c2[b]) + Sum(cs.c3[b]) + NestedSum(cs.rest[b])
  }

  /** The fields of a row add up to its key plus the sums of its parts. */
  lemma RowSum(cs: Columns, key: int, b: int, o: int)
    requires Fits(cs, b, o)
    ensures Sum(Row(cs, key, b, o)) == key + cs.c1[b][o] + cs.c2[b][o] + cs.c3[b][o] + Sum(cs.rest[b][o])
  {
    var head := [key, cs.c1[b][o], cs.c2[b][o], cs.c3[b][o]];
    SumConcat(head, cs.rest[b][o]);
    assert head == [key] + [cs.c1[b][o]] + [cs.c2[b][o]] + [cs.c3[b][o]];
    SumAppend([key] + [cs.c1[b][o]] + [cs.c2[b][o]], cs.c3[b][o]);
    SumAppend([key] + [cs.c1[b][o]], cs.c2[b][o]);
    SumAppend([key], cs.c1[b][o]);
    assert Sum([key]) == key by { assert [key][..0] == []; }
  }

  lemma ShapedPush(cs: Columns, nb: nat, caps: seq<int>, w: nat, b: int, r: int, x1: int, x2: int, x3: int, xr: seq<int>)
    requires Shaped(cs, nb, caps, w) && 0 <= b < nb && |cs.ids[b]| < caps[b]
    requires IsShort(x1) && IsShort(x2) && |xr| == w && AllShorts(xr)
    ensures Shaped(Push(cs, b, r, x1, x2, x3, xr), nb, caps, w)
  {
    var cs' := Push(cs, b, r, x1, x2, x3, xr);
    forall b' | 0 <= b' < nb
      ensures BucketLayout(cs'.ids[b'], cs'.c1[b'], cs'.c2[b'], cs'.c3[b'], cs'.rest[b'], caps[b'], w)
    {
      assert BucketLayout(cs.ids[b'], cs.c1[b'], cs.c2[b'], cs.c3[b'], cs.rest[b'], caps[b'], w);
    }
  }

  lemma ShapedDelete(cs: Columns, nb: nat, caps: seq<int>, w: nat, b: int, o: int)
    requires Shaped(cs, nb, caps, w) && Fits(cs, b, o)
    ensures BucketLayout(cs.ids[b], cs.c1[b], cs.c2[b], cs.c3[b], cs.rest[b], caps[b], w)
    ensures Shaped(Delete(cs, b, o), nb, caps, w)
  {
    assert BucketLayout(cs.ids[b], cs.c1[b], cs.c2[b], cs.c3[b], cs.rest[b], caps[b], w);
    var cs' := Delete(cs, b, o);
    forall b' | 0 <= b' < nb
      ensures BucketLayout(cs'.ids[b'], cs'.c1[b'], cs'.c2[b'], cs'.c3[b'], cs'.rest[b'], caps[b'], w)
    {
      assert BucketLayout(cs.ids[b'], cs.c1[b'], cs.c2[b'], cs.c3[b'], cs.rest[b'], caps[b'], w);
    }
  }

  lemma TotalPush(cs: Columns, b: int, r: int, x1: int, x2: int, x3: int, xr: seq<int>, key: int)
    requires 0 <= b < |cs.ids| && b < |cs.c1| && b < |cs.c2| && b < |cs.c3| && b < |cs.rest|
    ensures BucketTotal(Push(cs, b, r, x1, x2, x3, xr), b, key) == BucketTotal(cs, b, key) + key + x1 + x2 + x3 + Sum(xr)
  {
    SumAppend(cs.c1[b], x1);
    SumAppend(cs.c2[b], x2);
    SumAppend(cs.c3[b], x3);
    NestedSumAppend(cs.rest[b], xr);
  }

  lemma TotalDelete(cs: Columns, b: int, o: int, key: int)
    requires Fits(cs, b, o)
    requires |cs.c1[b]| == |cs.ids[b]| && |cs.c2[b]| == |cs.ids[b]| && |cs.c3[b]| == |cs.ids[b]| && |cs.rest[b]| == |cs.ids[b]|
    ensures BucketTotal(Delete(cs, b, o), b, key)
         == BucketTotal(cs, b, key) - key - cs.c1[b][o] - cs.c2[b][o] - cs.c3[b][o] - Sum(cs.rest[b][o])
  {
    SumDeleteSwap(cs.c1[b], o);
    SumDeleteSwap(cs.c2[b], o);
    SumDeleteSwap(cs.c3[b], o);
    NestedSumDeleteSwap(cs.rest[b], o);
  }

  /** Appending row `r`, absent so far, to bucket `b` and pointing its entry at
      the new last slot adds exactly that row to the logical rows. */
  lemma MirrorsPush(rows: map<int, seq<int>>, cs: Columns, ci: seq<int>, n: nat, p: int, idx: int,
                    nb: nat, caps: seq<int>, w: nat, b: int, r: int, x1: int, x2: int, x3: int, xr: seq<int>)
    requires Shaped(cs, nb, caps, w) && |ci| == 2 * n && Indexed(cs.ids, ci, n) && Mirrors(rows, cs, ci, n, p, idx)
    requires 0 <= b < nb && 0 <= r < n && r !in rows
    ensures var cs' := Push(cs, b, r, x1, x2, x3, xr);
            var ci' := ci[2 * r := b][2 * r + 1 := |cs.ids[b]|];
            Mirrors(rows[r := [Scaled(b, p) + idx, x1, x2, x3] + xr], cs', ci', n, p, idx)
  {
    var cs' := Push(cs, b, r, x1, x2, x3, xr);
    var ci' := ci[2 * r := b][2 * r + 1 := |cs.ids[b]|];
    var rows' := rows[r := [Scaled(b, p) + idx, x1, x2, x3] + xr];
    assert BucketLayout(cs.ids[b], cs.c1[b], cs.c2[b], cs.c3[b], cs.rest[b], caps[b], w);
    forall r' | r' in rows'
      ensures 0 <= r' < n && Holds(cs', ci', p, idx, r', rows'[r'])
    {
      if r' != r {
        assert Holds(cs, ci, p, idx, r', rows[r']);
        var b', o' := ci[2 * r'], ci[2 * r' + 1];
        assert BucketLayout(cs.ids[b'], cs.c1[b'], cs.c2[b'], cs.c3[b'], cs.rest[b'], caps[b'], w);
        assert Row(cs', Scaled(b', p) + idx, b', o') == Row(cs, Scaled(b', p) + idx, b', o');
      }
    }
  }

  /** After a delete by swap of row `r`'s slot, every other row still stored
      is found at its entry, with the same fields. */
  lemma DeleteKeepsRow(cs: Columns, ci: seq<int>, n: nat, p: int, idx: int, r: int, r': int, row: seq<int>)
    requires |ci| == 2 * n && Indexed(cs.ids, ci, n)
    requires 0 <= r < n && ci[2 * r] >= 0 && Fits(cs, ci[2 * r], ci[2 * r + 1]) && cs.ids[ci[2 * r]][ci[2 * r + 1]] == r
    requires var b := ci[2 * r]; |cs.c1[b]| == |cs.ids[b]| && |cs.c2[b]| == |cs.ids[b]| && |cs.c3[b]| == |cs.ids[b]| && |cs.rest[b]| == |cs.ids[b]|
    requires r' != r && Holds(cs, ci, p, idx, r', row)
    ensures var b, o := ci[2 * r], ci[2 * r + 1];
            && PointsBack(cs.ids, ci, b, |cs.ids[b]| - 1)
            && Holds(Delete(cs, b, o), Relink(ci[2 * r := -1][2 * r + 1 := -1], cs.ids, b, o), p, idx, r', row)
  {
    var b, o := ci[2 * r], ci[2 * r + 1];
    var last := |cs.ids[b]| - 1;
    assert PointsBack(cs.ids, ci, b, last);
    var cs' := Delete(cs, b, o);
    var ci' := Relink(ci[2 * r := -1][2 * r + 1 := -1], cs.ids, b, o);
    var moved := cs.ids[b][last];
    var b', o' := ci[2 * r'], ci[2 * r' + 1];
    if o != last && r' == moved {
      assert (b', o') == (b, last);
      assert ci'[2 * r'] == b && ci'[2 * r' + 1] == o;
      assert Row(cs', Scaled(b, p) + idx, b, o) == Row(cs, Scaled(b, p) + idx, b, last);
    } else {
      if o != last {
        SlotsAreDistinct(cs.ids, ci, n, b, o, b, last);
      }
      assert ci'[2 * r'] == b' && ci'[2 * r' + 1] == o';
      if b' == b {
        SlotsAreDistinct(cs.ids, ci, n, b, o', b, o);
        if o != last {
          SlotsAreDistinct(cs.ids, ci, n, b, o', b, last);
        }
      }
      assert Row(cs', Scaled(b', p) + idx, b', o') == Row(cs, Scaled(b', p) + idx, b', o');
    }
  }

  /** Deleting the slot of row `r` by swap and marking `r` absent removes exactly
      that row from the logical rows. */
  lemma MirrorsDelete(rows: map<int, seq<int>>, cs: Columns, ci: seq<int>, n: nat, p: int, idx: int,
                      nb: nat, caps: seq<int>, w: nat, r: int)
    requires Shaped(cs, nb, caps, w) && |ci| == 2 * n && Indexed(cs.ids, ci, n) && Mirrors(rows, cs, ci, n, p, idx)
    requires r in rows
    ensures var b, o := ci[2 * r], ci[2 * r + 1];
            && Fits(cs, b, o) && cs.ids[b][o] == r
            && BucketLayout(cs.ids[b], cs.c1[b], cs.c2[b], cs.c3[b], cs.rest[b], caps[b], w)
            && PointsBack(cs.ids, ci, b, |cs.ids[b]| - 1)
            && Mirrors(rows - {r}, Delete(cs, b, o), Relink(ci[2 * r := -1][2 * r + 1 := -1], cs.ids, b, o), n, p, idx)
  {
    assert Holds(cs, ci, p, idx, r, rows[r]);
    var b, o := ci[2 * r], ci[2 * r + 1];
    var last := |cs.ids[b]| - 1;
    assert BucketLayout(cs.ids[b], cs.c1[b], cs.c2[b], cs.c3[b], cs.rest[b], caps[b], w);
    IndexRemove(cs.ids, ci, n, b, o);
    var ci' := Relink(ci[2 * r := -1][2 * r + 1 := -1], cs.ids, b, o);
    var rows' := rows - {r};
    DeletePresence(rows, cs, ci, n, r);
    forall r' | r' in rows'
      ensures 0 <= r' < n && Holds(Delete(cs, b, o), ci', p, idx, r', rows'[r'])
    {
      DeleteKeepsRow(cs, ci, n, p, idx, r, r', rows[r']);
    }
  }

  /** A delete by swap of row `r`'s slot leaves every other row present. */
  lemma DeletePresence(rows: map<int, seq<int>>, cs: Columns, ci: seq<int>, n: nat, r: int)
    requires |ci| == 2 * n && Indexed(cs.ids, ci, n)
    requires forall r': nat :: r' < n ==> (r' in rows <==> ci[2 * r'] >= 0)
    requires 0 <= r < n && ci[2 * r] >= 0 && 0 <= ci[2 * r] < |cs.ids| && 0 <= ci[2 * r + 1] < |cs.ids[ci[2 * r]]|
    requires cs.ids[ci[2 * r]][ci[2 * r + 1]] == r
    ensures var b, o := ci[2 * r], ci[2 * r + 1];
            && PointsBack(cs.ids, ci, b, |cs.ids[b]| - 1)
            && var ci' := Relink(ci[2 * r := -1][2 * r + 1 := -1], cs.ids, b, o);
               forall r': nat :: r' < n ==> (r' in rows - {r} <==> ci'[2 * r'] >= 0)
  {
    var b, o := ci[2 * r], ci[2 * r + 1];
    var last := |cs.ids[b]| - 1;
    assert PointsBack(cs.ids, ci, b, last);
    var ci' := Relink(ci[2 * r := -1][2 * r + 1 := -1], cs.ids, b, o);
    var moved := cs.ids[b][last];
    if o != last {
      SlotsAreDistinct(cs.ids, ci, n, b, o, b, last);
    }
    forall r': nat | r' < n
      ensures r' in rows - {r} <==> ci'[2 * r'] >= 0
    {
      if r' == r {
      } else if o != last && r' == moved {
        assert ci'[2 * r'] == b;
      } else {
        assert ci'[2 * r'] == ci[2 * r'];
      }
    }
  }

  /** The source moves a row between two different buckets by appending it
      to the new bucket `nb'` and pointing its entry there, then deleting its
      old slot `(b, o)` by swap. Deleting first and appending after gives the
      same columns and the same index. */
  lemma AppendDeleteCommute(cs: Columns, ci: seq<int>, b: int, o: int, nb': int)
    requires Fits(cs, b, o)
    requires |cs.c1[b]| == |cs.ids[b]| && |cs.c2[b]| == |cs.ids[b]| && |cs.c3[b]| == |cs.ids[b]| && |cs.rest[b]| == |cs.ids[b]|
    requires 0 <= nb' < |cs.ids| && nb' < |cs.c1| && nb' < |cs.c2| && nb' < |cs.c3| && nb' < |cs.rest| && nb' != b
    requires PointsBack(cs.ids, ci, b, o) && PointsBack(cs.ids, ci, b, |cs.ids[b]| - 1)
    ensures var r, x1, x2, x3, xr := cs.ids[b][o], cs.c1[b][o], cs.c2[b][o], cs.c3[b][o], cs.rest[b][o];
            var cs1 := Push(cs, nb', r, x1, x2, x3, xr);
            var cs2 := Delete(cs, b, o);
            && Fits(cs1, b, o)
            && Delete(cs1, b, o) == Push(cs2, nb', r, x1, x2, x3, xr)
            && Relink(ci[2 * r := nb'][2 * r + 1 := |cs.ids[nb']|], cs1.ids, b, o)
               == Relink(ci[2 * r := -1][2 * r + 1 := -1], cs.ids, b, o)[2 * r := nb'][2 * r + 1 := |cs2.ids[nb']|]
  {
  }

  /** Rewriting the key of a stored row gives the row map the move produces. */
  lemma RekeyedRow(rows: map<int, seq<int>>, r: int, row: seq<int>, key: int)
    requires r in rows && rows[r] == row && |row| >= 4
    ensures rows[r := rows[r][0 := key]] == (rows - {r})[r := [key, row[1], row[2], row[3]] + row[4..]]
  {
    assert rows[r][0 := key] == [key, row[1], row[2], row[3]] + row[4..];
  }

  /** Adding up a quantity that is the field sum of each row, over the first `k`
      slots of bucket `b`, gives the bucket's column sums over those slots. */
  lemma {:induction false} BucketRowsTotal(m: map<int, seq<int>>, q: Query, cs: Columns, b: int, key: int, k: nat)
    requires 0 <= b < |cs.ids| && b < |cs.c1| && b < |cs.c2| && b < |cs.c3| && b < |cs.rest|
    requires k <= |cs.ids[b]| && k <= |cs.c1[b]| && k <= |cs.c2[b]| && k <= |cs.c3[b]| && k <= |cs.rest[b]|
    requires forall o :: 0 <= o < k ==> Value(m, q, cs.ids[b][o]) == Sum(Row(cs, key, b, o))
    ensures SumOver(m, q, cs.ids[b][..k])
         == Scaled(k, key) + Sum(cs.c1[b][..k]) + Sum(cs.c2[b][..k]) + Sum(cs.c3[b][..k]) + NestedSum(cs.rest[b][..k])
  {
    if k > 0 {
      var j := k - 1;
      BucketRowsTotal(m, q, cs, b, key, j);
      SumOverPrefix(m, q, cs.ids[b], j);
      assert cs.c1[b][..k][..j] == cs.c1[b][..j];
      assert cs.c2[b][..k][..j] == cs.c2[b][..j];
      assert cs.c3[b][..k][..j] == cs.c3[b][..j];
      assert cs.rest[b][..k][..j] == cs.rest[b][..j];
      RowSum(cs, key, b, j);
    }
  }
}
