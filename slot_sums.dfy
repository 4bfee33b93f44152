/** Sums over the rows a partition holds, taken two ways: slot by slot through
    the bucket row-id columns (the way the partition's loops and running
    aggregates see them) and row id by row id (the way the table's queries are
    defined). When the index and the row-id columns are mutual inverses the
    two agree, which is what lets a bucket scan answer a query over rows. */
module SlotSums {
  import opened Common
  import opened BucketIndex
  import opened Queries

  /** What query `q` takes from row id `r` of the rows `m`: 0 for an absent id. */
  function Value(m: map<int, seq<int>>, q: Query, r: int): int {
    if r in m then Take(q, m[r]) else 0
  }

  /** `Value` added up over the row ids of one bucket column. */
  function SumOver(m: map<int, seq<int>>, q: Query, s: seq<int>): int {
    if s == [] then 0 else SumOver(m, q, s[..|s| - 1]) + Value(m, q, s[|s| - 1])
  }

  /** `Value` added up over every slot of every bucket, bucket by bucket. */
  function SlotTotal(m: map<int, seq<int>>, q: Query, ids: seq<seq<int>>): int {
    if ids == [] then 0 else SlotTotal(m, q, ids[..|ids| - 1]) + SumOver(m, q, ids[|ids| - 1])
  }

  /** `Value` added up over the row ids `0 .. n-1` that the index marks as present. */
  function RangeTotal(m: map<int, seq<int>>, q: Query, ci: seq<int>, n: nat): int
    requires 2 * n <= |ci|
  {
    if n == 0 then 0 else RangeTotal(m, q, ci, n - 1) + (if ci[2 * (n - 1)] >= 0 then Value(m, q, n - 1) else 0)
  }

  /** The answer of query `q` over the rows `0 .. n-1` of `m`. */
  function RowTotal(m: map<int, seq<int>>, q: Query, n: nat): int {
    if n == 0 then 0 else RowTotal(m, q, n - 1) + Value(m, q, n - 1)
  }

  lemma SumOverAppend(m: map<int, seq<int>>, q: Query, s: seq<int>, x: int)
    ensures SumOver(m, q, s + [x]) == SumOver(m, q, s) + Value(m, q, x)
  {
    assert (s + [x])[..|s|] == s;
  }

  lemma {:induction false} SumOverUpdate(m: map<int, seq<int>>, q: Query, s: seq<int>, i: nat, x: int)
    requires i < |s|
    ensures SumOver(m, q, s[i := x]) == SumOver(m, q, s) - Value(m, q, s[i]) + Value(m, q, x)
    decreases |s|
  {
    var n := |s| - 1;
    if i == n {
      assert s[i := x][..n] == s[..n];
    } else {
      assert s[i := x][..n] == s[..n][i := x];
      SumOverUpdate(m, q, s[..n], i, x);
    }
  }

  lemma SumOverDeleteSwap(m: map<int, seq<int>>, q: Query, s: seq<int>, o: nat)
    requires o < |s|
    ensures SumOver(m, q, DeleteSwap(s, o)) == SumOver(m, q, s) - Value(m, q, s[o])
  {
    var n := |s| - 1;
    if o < n {
      SumOverUpdate(m, q, s[..n], o, s[n]);
    }
  }

  /** A bucket whose every row contributes the same `c` contributes `c` per row. */
  lemma {:induction false} SumOverConst(m: map<int, seq<int>>, q: Query, s: seq<int>, c: int)
    requires forall o :: 0 <= o < |s| ==> Value(m, q, s[o]) == c
    ensures SumOver(m, q, s) == |s| * c
    decreases |s|
  {
    if s != [] {
      SumOverConst(m, q, s[..|s| - 1], c);
    }
  }

  lemma {:induction false} SlotTotalUpdate(m: map<int, seq<int>>, q: Query, ids: seq<seq<int>>, b: nat, s: seq<int>)
    requires b < |ids|
    ensures SlotTotal(m, q, ids[b := s]) == SlotTotal(m, q, ids) - SumOver(m, q, ids[b]) + SumOver(m, q, s)
    decreases |ids|
  {
    var n := |ids| - 1;
    if b == n {
      assert ids[b := s][..n] == ids[..n];
    } else {
      assert ids[b := s][..n] == ids[..n][b := s];
      SlotTotalUpdate(m, q, ids[..n], b, s);
    }
  }

  /** Buckets that each add up to nothing add up to nothing. */
  lemma {:induction false} SlotTotalOfZero(m: map<int, seq<int>>, q: Query, ids: seq<seq<int>>)
    requires forall b :: 0 <= b < |ids| ==> SumOver(m, q, ids[b]) == 0
    ensures SlotTotal(m, q, ids) == 0
    decreases |ids|
  {
    if ids != [] {
      SlotTotalOfZero(m, q, ids[..|ids| - 1]);
    }
  }

  /** Taking one more bucket of a prefix adds that bucket's share. */
  lemma SlotTotalPrefix(m: map<int, seq<int>>, q: Query, ids: seq<seq<int>>, k: nat)
    requires k < |ids|
    ensures SlotTotal(m, q, ids[..k + 1]) == SlotTotal(m, q, ids[..k]) + SumOver(m, q, ids[k])
  {
    assert ids[..k + 1][..k] == ids[..k];
  }

  /** Buckets from `k` on that add nothing leave the total of the first `k`. */
  lemma {:induction false} SlotTotalUpTo(m: map<int, seq<int>>, q: Query, ids: seq<seq<int>>, k: nat)
    requires k <= |ids|
    requires forall b :: k <= b < |ids| ==> SumOver(m, q, ids[b]) == 0
    ensures SlotTotal(m, q, ids) == SlotTotal(m, q, ids[..k])
    decreases |ids|
  {
    if |ids| > k {
      var n := |ids| - 1;
      SlotTotalUpTo(m, q, ids[..n], k);
      assert ids[..n][..k] == ids[..k];
    } else {
      assert ids[..k] == ids;
    }
  }

  lemma SumOverPrefix(m: map<int, seq<int>>, q: Query, s: seq<int>, k: nat)
    requires k < |s|
    ensures SumOver(m, q, s[..k + 1]) == SumOver(m, q, s[..k]) + Value(m, q, s[k])
  {
    assert s[..k + 1][..k] == s[..k];
  }

  /** Buckets before `lo` that add up to nothing, and later ones that each add
      up to their entry of `sums`, add up to the sum of `sums` from `lo` on. */
  lemma {:induction false} SlotTotalSplit(m: map<int, seq<int>>, q: Query, ids: seq<seq<int>>, sums: seq<int>, lo: nat)
    requires lo <= |ids| && |ids| == |sums|
    requires forall b :: 0 <= b < lo ==> SumOver(m, q, ids[b]) == 0
    requires forall b :: lo <= b < |ids| ==> SumOver(m, q, ids[b]) == sums[b]
    ensures SlotTotal(m, q, ids) == Sum(sums[lo..|sums|])
    decreases |ids|
  {
    if |ids| == lo {
      SlotTotalOfZero(m, q, ids);
      assert sums[lo..|sums|] == [];
    } else {
      var n := |ids| - 1;
      SlotTotalSplit(m, q, ids[..n], sums[..n], lo);
      assert sums[lo..|sums|] == sums[..n][lo..n] + [sums[n]];
      SumAppend(sums[..n][lo..n], sums[n]);
    }
  }

  /** A quantity that is 0 on every row totals 0. */
  lemma {:induction false} RowTotalOfZero(m: map<int, seq<int>>, q: Query, n: nat)
    requires forall r :: r in m ==> Take(q, m[r]) == 0
    ensures RowTotal(m, q, n) == 0
  {
    if n > 0 {
      RowTotalOfZero(m, q, n - 1);
    }
  }

  /** Only which ids are present matters to `RangeTotal`. */
  lemma {:induction false} RangeTotalSame(m: map<int, seq<int>>, q: Query, ci: seq<int>, ci': seq<int>, n: nat)
    requires 2 * n <= |ci| && 2 * n <= |ci'|
    requires forall r :: 0 <= r < n ==> (ci[2 * r] >= 0) == (ci'[2 * r] >= 0)
    ensures RangeTotal(m, q, ci', n) == RangeTotal(m, q, ci, n)
  {
    if n > 0 {
      RangeTotalSame(m, q, ci, ci', n - 1);
    }
  }

  /** Marking one present id absent takes its value out of `RangeTotal`. */
  lemma {:induction false} RangeTotalClear(m: map<int, seq<int>>, q: Query, ci: seq<int>, ci': seq<int>, n: nat, r: nat)
    requires 2 * n <= |ci| && 2 * n <= |ci'| && r < n
    requires ci[2 * r] >= 0 && ci'[2 * r] < 0
    requires forall r' :: 0 <= r' < n && r' != r ==> (ci[2 * r'] >= 0) == (ci'[2 * r'] >= 0)
    ensures RangeTotal(m, q, ci', n) == RangeTotal(m, q, ci, n) - Value(m, q, r)
  {
    if r == n - 1 {
      RangeTotalSame(m, q, ci, ci', n - 1);
    } else {
      RangeTotalClear(m, q, ci, ci', n - 1, r);
    }
  }

  /** Dropping an absent last id shortens the index by one row. */
  lemma IndexTruncate(ids: seq<seq<int>>, ci: seq<int>, n: nat)
    requires Indexed(ids, ci, n) && n > 0 && ci[2 * (n - 1)] < 0
    ensures Indexed(ids, ci[..2 * (n - 1)], n - 1)
  {
    var ci' := ci[..2 * (n - 1)];
    forall r: nat | r < n - 1
      ensures EntryOk(ids, ci', r)
    {
      assert EntryOk(ids, ci, r);
    }
    forall b: nat, o: nat | b < |ids| && o < |ids[b]|
      ensures PointsBack(ids, ci', b, o)
    {
      assert PointsBack(ids, ci, b, o);
    }
  }

  /** The first row of every non-empty bucket is a row id below `n`. */
  lemma FirstSlotsBelow(ids: seq<seq<int>>, ci: seq<int>, n: nat)
    requires Indexed(ids, ci, n)
    ensures forall b :: 0 <= b < |ids| ==> ids[b] == [] || 0 <= ids[b][0] < n
  {
    forall b | 0 <= b < |ids|
      ensures ids[b] == [] || 0 <= ids[b][0] < n
    {
      if ids[b] != [] {
        assert PointsBack(ids, ci, b, 0);
      }
    }
  }

  /** The two ways of adding up agree: over the slots of the buckets, and over
      the row ids the index marks as present. */
  lemma {:induction false} SlotsCoverRange(m: map<int, seq<int>>, q: Query, ids: seq<seq<int>>, ci: seq<int>, n: nat)
    requires Indexed(ids, ci, n)
    ensures SlotTotal(m, q, ids) == RangeTotal(m, q, ci, n)
    decreases n, if n > 0 && ci[2 * (n - 1)] >= 0 then 1 else 0
  {
    if n == 0 {
      FirstSlotsBelow(ids, ci, n);
      SlotTotalOfZero(m, q, ids);
    } else {
      var r := n - 1;
      assert EntryOk(ids, ci, r);
      if ci[2 * r] < 0 {
        IndexTruncate(ids, ci, n);
        SlotsCoverRange(m, q, ids, ci[..2 * r], r);
        RangeTotalSame(m, q, ci, ci[..2 * r], r);
      } else {
        var b, o := ci[2 * r], ci[2 * r + 1];
        var last := |ids[b]| - 1;
        IndexRemove(ids, ci, n, b, o);
        var ids' := ids[b := DeleteSwap(ids[b], o)];
        var ci' := Relink(ci[2 * r := -1][2 * r + 1 := -1], ids, b, o);
        var moved := ids[b][last];
        if o != last {
          SlotsAreDistinct(ids, ci, n, b, o, b, last);
        }
        forall r' | 0 <= r' < n && r' != r
          ensures (ci[2 * r'] >= 0) == (ci'[2 * r'] >= 0)
        {
          if o != last && r' == moved {
            assert ci'[2 * r'] == b;
          } else {
            assert ci'[2 * r'] == ci[2 * r'];
          }
        }
        assert ci'[2 * r] == -1;
        SlotsCoverRange(m, q, ids', ci', n);
        SumOverDeleteSwap(m, q, ids[b], o);
        SlotTotalUpdate(m, q, ids, b, DeleteSwap(ids[b], o));
        RangeTotalClear(m, q, ci, ci', n, r);
      }
    }
  }

  /** With presence in the index matching membership in the map, `RangeTotal`
      is the query's answer over the rows. */
  lemma {:induction false} RangeIsRowTotal(m: map<int, seq<int>>, q: Query, ci: seq<int>, n: nat)
    requires 2 * n <= |ci|
    requires forall r :: 0 <= r < n ==> ((r in m) <==> ci[2 * r] >= 0)
    ensures RangeTotal(m, q, ci, n) == RowTotal(m, q, n)
  {
    if n > 0 {
      RangeIsRowTotal(m, q, ci, n - 1);
    }
  }

  /** Row totals of two maps that agree on every id but `r` differ by `r`'s share. */
  lemma {:induction false} RowTotalDiffer(m: map<int, seq<int>>, m': map<int, seq<int>>, q: Query, n: nat, r: int)
    requires forall r' :: 0 <= r' < n && r' != r ==> Value(m, q, r') == Value(m', q, r')
    ensures 0 <= r < n ==> RowTotal(m', q, n) == RowTotal(m, q, n) - Value(m, q, r) + Value(m', q, r)
    ensures !(0 <= r < n) ==> RowTotal(m', q, n) == RowTotal(m, q, n)
  {
    if n > 0 {
      RowTotalDiffer(m, m', q, n - 1, r);
    }
  }

  /** The number of slots in a sequence of bucket columns. */
  function Sizes(cols: seq<seq<int>>): nat {
    if cols == [] then 0 else Sizes(cols[..|cols| - 1]) + |cols[|cols| - 1]|
  }

  /** Buckets whose every row counts once add up to their sizes. */
  lemma {:induction false} SlotTotalSizes(m: map<int, seq<int>>, q: Query, ids: seq<seq<int>>, cols: seq<seq<int>>)
    requires |ids| == |cols|
    requires forall b :: 0 <= b < |ids| ==> SumOver(m, q, ids[b]) == |cols[b]|
    ensures SlotTotal(m, q, ids) == Sizes(cols)
    decreases |ids|
  {
    if ids != [] {
      var n := |ids| - 1;
      SlotTotalSizes(m, q, ids[..n], cols[..n]);
    }
  }
}
