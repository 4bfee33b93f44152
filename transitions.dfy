/** The consistency of one partition's stored state, as a predicate over
    values, and the state changes of the put paths and of the update query,
    each shown to keep it. The partition's methods make these changes field
    by field; the lemmas here carry the reasoning, away from the heap. */
module Transitions {
  import opened Common
  import opened Bits
  import opened BucketIndex
  import opened BucketColumns

  /** `bucket_sum_all`: every field, the key and col3 included, of the rows of each bucket. */
  ghost predicate AllTotals(cs: Columns, all: seq<int>, nb: nat, p: int, idx: int)
    requires |cs.ids| == nb && |cs.c1| == nb && |cs.c2| == nb && |cs.c3| == nb && |cs.rest| == nb
  {
    |all| == nb && forall b :: 0 <= b < nb ==> all[b] == BucketTotal(cs, b, Scaled(b, p) + idx)
  }

  /** `bucket_sum_col2`: the col2 values of each bucket. */
  ghost predicate Col2Totals(cs: Columns, col2: seq<int>, nb: nat)
    requires |cs.c2| == nb
  {
    |col2| == nb && forall b :: 0 <= b < nb ==> col2[b] == Sum(cs.c2[b])
  }

  /** The invariants of a partition with `p == mask + 1`, index `idx`, `nb`
      buckets, `w` overflow columns and `n` row ids: every bucket's columns
      laid out in step within its capacity, the index and the row-id columns
      mutual inverses, the logical rows exactly what the slots hold, and the
      two cached per-bucket aggregates equal to brute-force sums. */
  ghost predicate Consistent(p: int, idx: int, nb: nat, w: nat, n: nat, caps: seq<int>,
                             cs: Columns, ci: seq<int>, all: seq<int>, col2: seq<int>, rows: map<int, seq<int>>)
  {
    match cs
    case Columns(ids, _, _, _, _) =>
      && Shaped(cs, nb, caps, w) && |ci| == 2 * n
      && Indexed(ids, ci, n) && Mirrors(rows, cs, ci, n, p, idx)
      && AllTotals(cs, all, nb, p, idx) && Col2Totals(cs, col2, nb)
  }

  /** A partition that owns no row yet: empty buckets, every index entry
      absent and every aggregate zero. */
  lemma EmptyConsistent(p: int, idx: int, nb: nat, w: nat, n: nat, caps: seq<int>)
    requires |caps| == nb && forall b :: 0 <= b < nb ==> caps[b] >= 0
    ensures Consistent(p, idx, nb, w, n, caps, EmptyColumns(nb), seq(2 * n, i => -1), seq(nb, b => 0), seq(nb, b => 0),
                       map[])
  {
    var cs := EmptyColumns(nb);
    forall b | 0 <= b < nb
      ensures BucketLayout(cs.ids[b], cs.c1[b], cs.c2[b], cs.c3[b], cs.rest[b], caps[b], w)
      ensures BucketTotal(cs, b, Scaled(b, p) + idx) == 0 && Sum(cs.c2[b]) == 0
    {
      assert cs.ids[b] == [] && cs.c1[b] == [] && cs.c2[b] == [] && cs.c3[b] == [] && cs.rest[b] == [];
    }
    var ci: seq<int> := seq(2 * n, i => -1);
    forall r: nat | r < n
      ensures EntryOk(cs.ids, ci, r)
    {
    }
  }

  /** Where an owned row is stored: its slot, named by its index entry, holds
      it with the key of its bucket, and the bucket is laid out in step. */
  lemma SlotOf(p: int, idx: int, nb: nat, w: nat, n: nat, caps: seq<int>,
               cs: Columns, ci: seq<int>, all: seq<int>, col2: seq<int>, rows: map<int, seq<int>>, r: int)
    requires Consistent(p, idx, nb, w, n, caps, cs, ci, all, col2, rows) && r in rows
    ensures 0 <= r < n
    ensures var b, o := ci[2 * r], ci[2 * r + 1];
            && 0 <= b < nb && Fits(cs, b, o) && cs.ids[b][o] == r
            && PointsBack(cs.ids, ci, b, o) && PointsBack(cs.ids, ci, b, |cs.ids[b]| - 1)
            && BucketLayout(cs.ids[b], cs.c1[b], cs.c2[b], cs.c3[b], cs.rest[b], caps[b], w)
            && rows[r] == Row(cs, Scaled(b, p) + idx, b, o)
  {
    assert Holds(cs, ci, p, idx, r, rows[r]);
    var b, o := ci[2 * r], ci[2 * r + 1];
    assert BucketLayout(cs.ids[b], cs.c1[b], cs.c2[b], cs.c3[b], cs.rest[b], caps[b], w);
  }

  /** The fields of a stored row other than the key, added up. */
  function RestSum(cs: Columns, b: int, o: int): int
    requires Fits(cs, b, o)
  {
    cs.c1[b][o] + cs.c2[b][o] + cs.c3[b][o] + Sum(cs.rest[b][o])
  }

  lemma {:induction false} TotalsPush(cs: Columns, all: seq<int>, nb: nat, p: int, idx: int,
                   b: int, r: int, x1: int, x2: int, x3: int, xr: seq<int>)
    requires |cs.ids| == nb && |cs.c1| == nb && |cs.c2| == nb && |cs.c3| == nb && |cs.rest| == nb
    requires AllTotals(cs, all, nb, p, idx) && 0 <= b < nb
    ensures AllTotals(Push(cs, b, r, x1, x2, x3, xr), all[b := all[b] + (Scaled(b, p) + idx) + x1 + x2 + x3 + Sum(xr)], nb, p, idx)
  {
    var cs', key := Push(cs, b, r, x1, x2, x3, xr), Scaled(b, p) + idx;
    var all' := all[b := all[b] + key + x1 + x2 + x3 + Sum(xr)];
    forall b' | 0 <= b' < nb
      ensures all'[b'] == BucketTotal(cs', b', Scaled(b', p) + idx)
    {
      if b' == b {
        TotalPush(cs, b, r, x1, x2, x3, xr, key);
      } else {
        assert cs'.ids[b'] == cs.ids[b'] && cs'.c1[b'] == cs.c1[b'] && cs'.c2[b'] == cs.c2[b'];
        assert cs'.c3[b'] == cs.c3[b'] && cs'.rest[b'] == cs.rest[b'];
      }
    }
  }

  lemma {:induction false} TotalsDelete(cs: Columns, all: seq<int>, nb: nat, p: int, idx: int, b: int, o: int)
    requires |cs.ids| == nb && |cs.c1| == nb && |cs.c2| == nb && |cs.c3| == nb && |cs.rest| == nb
    requires AllTotals(cs, all, nb, p, idx) && Fits(cs, b, o)
    requires |cs.c1[b]| == |cs.ids[b]| && |cs.c2[b]| == |cs.ids[b]| && |cs.c3[b]| == |cs.ids[b]| && |cs.rest[b]| == |cs.ids[b]|
    ensures AllTotals(Delete(cs, b, o), all[b := all[b] - (Scaled(b, p) + idx) - RestSum(cs, b, o)], nb, p, idx)
  {
    var cs', key := Delete(cs, b, o), Scaled(b, p) + idx;
    var all' := all[b := all[b] - key - RestSum(cs, b, o)];
    forall b' | 0 <= b' < nb
      ensures all'[b'] == BucketTotal(cs', b', Scaled(b', p) + idx)
    {
      if b' == b {
        TotalDelete(cs, b, o, key);
      } else {
        assert cs'.ids[b'] == cs.ids[b'] && cs'.c1[b'] == cs.c1[b'] && cs'.c2[b'] == cs.c2[b'];
        assert cs'.c3[b'] == cs.c3[b'] && cs'.rest[b'] == cs.rest[b'];
      }
    }
  }

  lemma {:induction false} Col2Push(cs: Columns, col2: seq<int>, nb: nat, b: int, r: int, x1: int, x2: int, x3: int, xr: seq<int>)
    requires |cs.ids| == nb && |cs.c1| == nb && |cs.c2| == nb && |cs.c3| == nb && |cs.rest| == nb
    requires Col2Totals(cs, col2, nb) && 0 <= b < nb
    ensures Col2Totals(Push(cs, b, r, x1, x2, x3, xr), col2[b := col2[b] + x2], nb)
  {
    SumAppend(cs.c2[b], x2);
  }

  lemma {:induction false} Col2Delete(cs: Columns, col2: seq<int>, nb: nat, b: int, o: int)
    requires |cs.ids| == nb && |cs.c1| == nb && |cs.c2| == nb && |cs.c3| == nb && |cs.rest| == nb
    requires Col2Totals(cs, col2, nb) && Fits(cs, b, o)
    requires |cs.c1[b]| == |cs.ids[b]| && |cs.c2[b]| == |cs.ids[b]| && |cs.c3[b]| == |cs.ids[b]| && |cs.rest[b]| == |cs.ids[b]|
    ensures Col2Totals(Delete(cs, b, o), col2[b := col2[b] - cs.c2[b][o]], nb)
  {
    SumDeleteSwap(cs.c2[b], o);
  }

  /** The receiving side of a migration: the row arrives with key
      `Scaled(b, p) + idx`, is appended to bucket `b` and indexed there, and
      both aggregates of `b` grow by its fields. */
  lemma {:induction false} ReceiveKeeps(p: int, idx: int, nb: nat, w: nat, n: nat, caps: seq<int>,
                     cs: Columns, ci: seq<int>, all: seq<int>, col2: seq<int>, rows: map<int, seq<int>>,
                     r: int, b: int, x1: int, x2: int, x3: int, xr: seq<int>)
    requires Consistent(p, idx, nb, w, n, caps, cs, ci, all, col2, rows)
    requires 0 <= r < n && r !in rows && 0 <= b < nb && |cs.ids[b]| < caps[b]
    requires IsShort(x1) && IsShort(x2) && |xr| == w && AllShorts(xr)
    ensures var key := Scaled(b, p) + idx;
            Consistent(p, idx, nb, w, n, caps, Push(cs, b, r, x1, x2, x3, xr), ci[2 * r := b][2 * r + 1 := |cs.ids[b]|],
                       all[b := all[b] + key + x1 + x2 + x3 + Sum(xr)], col2[b := col2[b] + x2],
                       rows[r := [key, x1, x2, x3] + xr])
  {
    assert EntryOk(cs.ids, ci, r);
    ShapedPush(cs, nb, caps, w, b, r, x1, x2, x3, xr);
    IndexAppend(cs.ids, ci, n, b, r);
    MirrorsPush(rows, cs, ci, n, p, idx, nb, caps, w, b, r, x1, x2, x3, xr);
    TotalsPush(cs, all, nb, p, idx, b, r, x1, x2, x3, xr);
    Col2Push(cs, col2, nb, b, r, x1, x2, x3, xr);
  }

  /** The sending side of a migration: the row's slot is deleted by swap, its
      entry cleared, and both aggregates of its bucket shrink by its fields. */
  lemma {:induction false} SendKeeps(p: int, idx: int, nb: nat, w: nat, n: nat, caps: seq<int>,
                  cs: Columns, ci: seq<int>, all: seq<int>, col2: seq<int>, rows: map<int, seq<int>>, r: int,
                  key: int, s: int)
    requires Consistent(p, idx, nb, w, n, caps, cs, ci, all, col2, rows)
    requires r in rows && 0 <= r < n
    requires var b, o := ci[2 * r], ci[2 * r + 1];
             Fits(cs, b, o) && key == Scaled(b, p) + idx && s == RestSum(cs, b, o)
    ensures var b, o := ci[2 * r], ci[2 * r + 1];
            && |cs.c1[b]| == |cs.ids[b]| && |cs.c2[b]| == |cs.ids[b]| && |cs.c3[b]| == |cs.ids[b]| && |cs.rest[b]| == |cs.ids[b]|
            && PointsBack(cs.ids, ci, b, |cs.ids[b]| - 1)
            && Consistent(p, idx, nb, w, n, caps, Delete(cs, b, o), Relink(ci[2 * r := -1][2 * r + 1 := -1], cs.ids, b, o),
                          all[b := all[b] - s - key], col2[b := col2[b] - cs.c2[b][o]], rows - {r})
  {
    MirrorsDelete(rows, cs, ci, n, p, idx, nb, caps, w, r);
    var b, o := ci[2 * r], ci[2 * r + 1];
    ShapedDelete(cs, nb, caps, w, b, o);
    IndexRemove(cs.ids, ci, n, b, o);
    TotalsDelete(cs, all, nb, p, idx, b, o);
    Col2Delete(cs, col2, nb, b, o);
    assert all[b := all[b] - s - key] == all[b := all[b] - (Scaled(b, p) + idx) - RestSum(cs, b, o)];
  }

  /** Field `c >= 1` of the row in slot `(b, o)` set to `v`: one cell of col1,
      col2, col3 or of the overflow columns. */
  function SetCell(cs: Columns, b: int, o: int, c: int, v: int): Columns
    requires Fits(cs, b, o) && 1 <= c < 4 + |cs.rest[b][o]|
  {
    if c == 1 then cs.(c1 := cs.c1[b := cs.c1[b][o := v]])
    else if c == 2 then cs.(c2 := cs.c2[b := cs.c2[b][o := v]])
    else if c == 3 then cs.(c3 := cs.c3[b := cs.c3[b][o := v]])
    else cs.(rest := cs.rest[b := cs.rest[b][o := cs.rest[b][o][c - 4 := v]]])
  }

  /** Setting a cell changes that field of the row in the slot and no other row. */
  lemma {:induction false} CellKeepsRow(cs: Columns, ci: seq<int>, p: int, idx: int, b: int, o: int, c: int, v: int,
                                        r': int, row: seq<int>)
    requires Fits(cs, b, o) && 1 <= c < 4 + |cs.rest[b][o]|
    requires 0 <= 2 * cs.ids[b][o] && 2 * cs.ids[b][o] + 1 < |ci| && ci[2 * cs.ids[b][o]] == b && ci[2 * cs.ids[b][o] + 1] == o
    requires Holds(cs, ci, p, idx, r', row)
    ensures r' == cs.ids[b][o] ==> c < |row|
    ensures Holds(SetCell(cs, b, o, c, v), ci, p, idx, r', if r' == cs.ids[b][o] then row[c := v] else row)
  {
    var cs' := SetCell(cs, b, o, c, v);
    var b', o' := ci[2 * r'], ci[2 * r' + 1];
    if r' == cs.ids[b][o] {
      var key := Scaled(b, p) + idx;
      assert Row(cs', key, b, o) == Row(cs, key, b, o)[c := v] by {
        var head := [key, cs.c1[b][o], cs.c2[b][o], cs.c3[b][o]];
        if c >= 4 {
          assert Row(cs', key, b, o) == head + cs.rest[b][o][c - 4 := v];
        }
      }
    } else {
      assert b' != b || o' != o;
      assert Row(cs', Scaled(b', p) + idx, b', o') == Row(cs, Scaled(b', p) + idx, b', o');
    }
  }

  lemma {:induction false} CellTotal(cs: Columns, b: int, o: int, c: int, v: int, key: int)
    requires Fits(cs, b, o) && 1 <= c < 4 + |cs.rest[b][o]|
    ensures BucketTotal(SetCell(cs, b, o, c, v), b, key) == BucketTotal(cs, b, key) - Row(cs, key, b, o)[c] + v
  {
    if c == 1 {
      SumUpdate(cs.c1[b], o, v);
    } else if c == 2 {
      SumUpdate(cs.c2[b], o, v);
    } else if c == 3 {
      SumUpdate(cs.c3[b], o, v);
    } else {
      SumUpdate(cs.rest[b][o], c - 4, v);
      NestedSumUpdate(cs.rest[b], o, cs.rest[b][o][c - 4 := v]);
    }
  }

  lemma {:induction false} CellTotals(cs: Columns, all: seq<int>, col2: seq<int>, nb: nat, caps: seq<int>, w: nat,
                                      p: int, idx: int, b: int, o: int, c: int, v: int)
    requires Shaped(cs, nb, caps, w) && AllTotals(cs, all, nb, p, idx) && Col2Totals(cs, col2, nb)
    requires Fits(cs, b, o) && 1 <= c < 4 + |cs.rest[b][o]| && (c == 3 || IsShort(v))
    ensures var was := Row(cs, Scaled(b, p) + idx, b, o)[c];
            && Shaped(SetCell(cs, b, o, c, v), nb, caps, w)
            && AllTotals(SetCell(cs, b, o, c, v), all[b := all[b] - was + v], nb, p, idx)
            && Col2Totals(SetCell(cs, b, o, c, v), if c == 2 then col2[b := col2[b] - was + v] else col2, nb)
  {
    var cs' := SetCell(cs, b, o, c, v);
    assert BucketLayout(cs.ids[b], cs.c1[b], cs.c2[b], cs.c3[b], cs.rest[b], caps[b], w);
    forall b' | 0 <= b' < nb
      ensures BucketLayout(cs'.ids[b'], cs'.c1[b'], cs'.c2[b'], cs'.c3[b'], cs'.rest[b'], caps[b'], w)
    {
      assert BucketLayout(cs.ids[b'], cs.c1[b'], cs.c2[b'], cs.c3[b'], cs.rest[b'], caps[b'], w);
    }
    CellTotal(cs, b, o, c, v, Scaled(b, p) + idx);
    if c == 2 {
      SumUpdate(cs.c2[b], o, v);
    }
  }

  /** A put of a non-key field `c` of an owned row: the cell is overwritten and
      the aggregates of the row's bucket move by the difference. */
  lemma {:induction false} CellKeeps(p: int, idx: int, nb: nat, w: nat, n: nat, caps: seq<int>,
                                     cs: Columns, ci: seq<int>, all: seq<int>, col2: seq<int>, rows: map<int, seq<int>>,
                                     r: int, c: int, v: int, cs': Columns, all': seq<int>, col2': seq<int>)
    requires Consistent(p, idx, nb, w, n, caps, cs, ci, all, col2, rows)
    requires r in rows && 0 <= r && 2 * r + 1 < |ci| && 1 <= c < 4 + w && (c == 3 || IsShort(v))
    requires var b, o := ci[2 * r], ci[2 * r + 1];
             && Fits(cs, b, o) && |cs.rest[b][o]| == w && c < |rows[r]|
             && cs' == SetCell(cs, b, o, c, v) && all' == all[b := all[b] - rows[r][c] + v]
             && col2' == if c == 2 then col2[b := col2[b] - rows[r][c] + v] else col2
    ensures Consistent(p, idx, nb, w, n, caps, cs', ci, all', col2', rows[r := rows[r][c := v]])
  {
    assert Holds(cs, ci, p, idx, r, rows[r]);
    var b, o := ci[2 * r], ci[2 * r + 1];
    assert BucketLayout(cs.ids[b], cs.c1[b], cs.c2[b], cs.c3[b], cs.rest[b], caps[b], w);
    CellMirrors(rows, cs, ci, n, p, idx, r, c, v);
    CellTotals(cs, all, col2, nb, caps, w, p, idx, b, o, c, v);
  }

  lemma {:induction false} CellMirrors(rows: map<int, seq<int>>, cs: Columns, ci: seq<int>, n: nat, p: int, idx: int,
                                       r: int, c: int, v: int)
    requires |ci| == 2 * n && Mirrors(rows, cs, ci, n, p, idx) && r in rows
    requires Fits(cs, ci[2 * r], ci[2 * r + 1]) && 1 <= c < 4 + |cs.rest[ci[2 * r]][ci[2 * r + 1]]|
    ensures c < |rows[r]|
    ensures Mirrors(rows[r := rows[r][c := v]], SetCell(cs, ci[2 * r], ci[2 * r + 1], c, v), ci, n, p, idx)
  {
    assert Holds(cs, ci, p, idx, r, rows[r]);
    var b, o := ci[2 * r], ci[2 * r + 1];
    var cs' := SetCell(cs, b, o, c, v);
    var rows' := rows[r := rows[r][c := v]];
    forall r' | r' in rows'
      ensures Holds(cs', ci, p, idx, r', rows'[r'])
    {
      assert Holds(cs, ci, p, idx, r', rows[r']);
      CellKeepsRow(cs, ci, p, idx, b, o, c, v, r', rows[r']);
    }
  }

  /** Position-by-position sum of `a` and `b`, as `col3 += col2` leaves col3. */
  function AddColumns(a: seq<int>, b: seq<int>): (r: seq<int>)
    requires |a| == |b|
    ensures |r| == |a| && forall j :: 0 <= j < |a| ==> r[j] == a[j] + b[j]
  {
    seq(|a|, j requires 0 <= j < |a| => a[j] + b[j])
  }

  lemma {:induction false} SumAddColumns(a: seq<int>, b: seq<int>)
    requires |a| == |b|
    ensures Sum(AddColumns(a, b)) == Sum(a) + Sum(b)
    decreases |a|
  {
    if |a| > 0 {
      var n := |a| - 1;
      assert AddColumns(a, b)[..n] == AddColumns(a[..n], b[..n]);
      SumAddColumns(a[..n], b[..n]);
    }
  }

  /** The logical rows after `UPDATE (col3 = col3 + col2) WHERE col0 < t`. */
  function UpdatedRows(m: map<int, seq<int>>, t: int): (m': map<int, seq<int>>)
    ensures m'.Keys == m.Keys
  {
    map r | r in m :: if |m[r]| >= 4 && m[r][0] < t then m[r][3 := m[r][3] + m[r][2]] else m[r]
  }

  /** col3 of buckets `0 .. end` after the update query: col2 added in. */
  function AddBelow(c3: seq<seq<int>>, c2: seq<seq<int>>, end: int): (c3': seq<seq<int>>)
    requires |c2| == |c3| && forall b :: 0 <= b < |c3| ==> |c2[b]| == |c3[b]|
    ensures |c3'| == |c3|
  {
    seq(|c3|, b requires 0 <= b < |c3| => if b <= end then AddColumns(c3[b], c2[b]) else c3[b])
  }

  /** `bucket_sum_all` of buckets `0 .. end` after the update query: their col2 totals added in. */
  function AddSumsBelow(all: seq<int>, col2: seq<int>, end: int): (all': seq<int>)
    requires |all| == |col2|
    ensures |all'| == |all|
  {
    seq(|all|, b requires 0 <= b < |all| => if b <= end then all[b] + col2[b] else all[b])
  }

  /** The update query changes the row in a slot exactly as `UpdatedRows` says. */
  lemma {:induction false} UpdateKeepsRow(cs: Columns, ci: seq<int>, p: int, idx: int, t: int, end: int, r: int, row: seq<int>)
    requires |cs.c2| == |cs.c3| && forall b :: 0 <= b < |cs.c3| ==> |cs.c2[b]| == |cs.c3[b]|
    requires Holds(cs, ci, p, idx, r, row)
    requires ci[2 * r] <= end <==> Scaled(ci[2 * r], p) + idx < t
    ensures |row| >= 4
    ensures Holds(cs.(c3 := AddBelow(cs.c3, cs.c2, end)), ci, p, idx, r,
                  if row[0] < t then row[3 := row[3] + row[2]] else row)
  {
    var b, o := ci[2 * r], ci[2 * r + 1];
    var cs' := cs.(c3 := AddBelow(cs.c3, cs.c2, end));
    var key := Scaled(b, p) + idx;
    if b <= end {
      assert cs'.c3[b][o] == cs.c3[b][o] + cs.c2[b][o];
      assert Row(cs', key, b, o) == Row(cs, key, b, o)[3 := cs.c3[b][o] + cs.c2[b][o]];
    } else {
      assert cs'.c3[b] == cs.c3[b];
    }
  }

  lemma {:induction false} UpdateShaped(cs: Columns, nb: nat, caps: seq<int>, w: nat, end: int)
    requires Shaped(cs, nb, caps, w)
    ensures forall b :: 0 <= b < |cs.c3| ==> |cs.c2[b]| == |cs.c3[b]|
    ensures Shaped(cs.(c3 := AddBelow(cs.c3, cs.c2, end)), nb, caps, w)
  {
    forall b | 0 <= b < nb
      ensures |cs.c2[b]| == |cs.c3[b]|
    {
      assert BucketLayout(cs.ids[b], cs.c1[b], cs.c2[b], cs.c3[b], cs.rest[b], caps[b], w);
    }
    var cs' := cs.(c3 := AddBelow(cs.c3, cs.c2, end));
    forall b | 0 <= b < nb
      ensures BucketLayout(cs'.ids[b], cs'.c1[b], cs'.c2[b], cs'.c3[b], cs'.rest[b], caps[b], w)
    {
      assert BucketLayout(cs.ids[b], cs.c1[b], cs.c2[b], cs.c3[b], cs.rest[b], caps[b], w);
    }
  }

  lemma {:induction false} UpdateTotals(cs: Columns, all: seq<int>, col2: seq<int>, nb: nat, p: int, idx: int, end: int)
    requires |cs.ids| == nb && |cs.c1| == nb && |cs.c2| == nb && |cs.c3| == nb && |cs.rest| == nb
    requires forall b :: 0 <= b < |cs.c3| ==> |cs.c2[b]| == |cs.c3[b]|
    requires AllTotals(cs, all, nb, p, idx) && Col2Totals(cs, col2, nb)
    ensures AllTotals(cs.(c3 := AddBelow(cs.c3, cs.c2, end)), AddSumsBelow(all, col2, end), nb, p, idx)
  {
    var cs' := cs.(c3 := AddBelow(cs.c3, cs.c2, end));
    var all' := AddSumsBelow(all, col2, end);
    forall b | 0 <= b < nb
      ensures all'[b] == BucketTotal(cs', b, Scaled(b, p) + idx)
    {
      if b <= end {
        SumAddColumns(cs.c3[b], cs.c2[b]);
      }
    }
  }

  lemma {:induction false} UpdateMirrors(rows: map<int, seq<int>>, cs: Columns, ci: seq<int>, n: nat, p: int, idx: int,
                                         nb: nat, t: int, end: int)
    requires |cs.ids| == nb && |cs.c2| == nb && |cs.c3| == nb && |ci| == 2 * n
    requires forall b :: 0 <= b < |cs.c3| ==> |cs.c2[b]| == |cs.c3[b]|
    requires Mirrors(rows, cs, ci, n, p, idx)
    requires forall b :: 0 <= b < nb ==> (b <= end <==> Scaled(b, p) + idx < t)
    ensures Mirrors(UpdatedRows(rows, t), cs.(c3 := AddBelow(cs.c3, cs.c2, end)), ci, n, p, idx)
  {
    var rows' := UpdatedRows(rows, t);
    forall r | r in rows'
      ensures Holds(cs.(c3 := AddBelow(cs.c3, cs.c2, end)), ci, p, idx, r, rows'[r])
    {
      assert Holds(cs, ci, p, idx, r, rows[r]);
      UpdateHoldsRow(rows, cs, ci, p, idx, nb, t, end, r);
    }
  }

  /** One row of `UpdateMirrors`. */
  lemma UpdateHoldsRow(rows: map<int, seq<int>>, cs: Columns, ci: seq<int>, p: int, idx: int, nb: nat, t: int, end: int, r: int)
    requires |cs.ids| == nb && |cs.c2| == nb && |cs.c3| == nb
    requires forall b :: 0 <= b < |cs.c3| ==> |cs.c2[b]| == |cs.c3[b]|
    requires r in rows && Holds(cs, ci, p, idx, r, rows[r])
    requires forall b :: 0 <= b < nb ==> (b <= end <==> Scaled(b, p) + idx < t)
    ensures Holds(cs.(c3 := AddBelow(cs.c3, cs.c2, end)), ci, p, idx, r, UpdatedRows(rows, t)[r])
  {
    var b := ci[2 * r];
    assert b <= end <==> Scaled(b, p) + idx < t;
    UpdateKeepsRow(cs, ci, p, idx, t, end, r, rows[r]);
  }

  /** `UPDATE (col3 = col3 + col2) WHERE col0 < t` over buckets `0 .. end`,
      the buckets whose key is below `t`: every row there gets col2 added to
      col3, and the bucket's total grows by its col2 total. */
  lemma {:induction false} UpdateKeeps(p: int, idx: int, nb: nat, w: nat, n: nat, caps: seq<int>,
                                       cs: Columns, ci: seq<int>, all: seq<int>, col2: seq<int>, rows: map<int, seq<int>>,
                                       t: int, end: int)
    requires Consistent(p, idx, nb, w, n, caps, cs, ci, all, col2, rows)
    requires forall b :: 0 <= b < nb ==> (b <= end <==> Scaled(b, p) + idx < t)
    ensures forall b :: 0 <= b < |cs.c3| ==> |cs.c2[b]| == |cs.c3[b]|
    ensures Consistent(p, idx, nb, w, n, caps, cs.(c3 := AddBelow(cs.c3, cs.c2, end)), ci,
                       AddSumsBelow(all, col2, end), col2, UpdatedRows(rows, t))
  {
    UpdateShaped(cs, nb, caps, w, end);
    UpdateMirrors(rows, cs, ci, n, p, idx, nb, t, end);
    UpdateTotals(cs, all, col2, nb, p, idx, end);
  }
}
