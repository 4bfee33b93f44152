/** Defects of the worker: two on the key path of `workerPutIntField` and one
    in the bucket range of `workerPredicatedUpdate`, each written the way the
    code has it next to the behaviour the rest of the model uses. */
module Findings {
  import opened Common
  import opened Bits
  import opened Wire
  import opened Partition

  // The "nothing changed" test of a key put.

  /** A key put to row `r`, stored at offset `offset` of its bucket, with the
      "nothing changed" test as written: bucket times `mask + 1` plus the
      row's offset, where the key has the partition index instead. When that
      test fails the put goes on as intended (`AfterPut`). */
  function KeyPutAsWritten(rows: map<int, seq<int>>, p: nat, idx: int, r: int, offset: int, field: int,
                           arrived: MovedRow): (rows': map<int, seq<int>>)
    requires p > 0 && r in rows && |rows[r]| > 0 && rows[r][0] >= 0 && rows[r][0] % p == idx
    ensures offset == idx ==> rows' == AfterPut(rows, p, idx, r, 0, field, arrived)
    ensures rows' == AfterPut(rows, p, idx, r, 0, field, arrived)
            || (rows' == rows && field != rows[r][0] && field == (rows[r][0] / p) * p + offset)
  {
    var k := rows[r][0];
    assert k == (k / p) * p + idx;
    if (k / p) * p + offset == field then rows else AfterPut(rows, p, idx, r, 0, field, arrived)
  }

  /** A single partition (`mask + 1 == 1`) holding three rows of key 5, loaded
      in order, so row 2 sits at offset 2 of bucket 5. Putting key 7 into
      row 2 passes the test as written (5 * 1 + 2 == 7) and is dropped,
      although the row should now have key 7. */
  lemma KeyPutAsWrittenDropsChange()
    ensures var rows := map[0 := [5, 0, 0, 0], 1 := [5, 0, 0, 0], 2 := [5, 0, 0, 0]];
            var none := MovedRow([], 0, 0, 0);
            && KeyPutAsWritten(rows, 1, 0, 2, 2, 7, none) == rows
            && AfterPut(rows, 1, 0, 2, 0, 7, none) == rows[2 := [7, 0, 0, 0]]
            && AfterPut(rows, 1, 0, 2, 0, 7, none) != rows
  {
    var rows := map[0 := [5, 0, 0, 0], 1 := [5, 0, 0, 0], 2 := [5, 0, 0, 0]];
    assert [5, 0, 0, 0][0 := 7] == [7, 0, 0, 0];
    assert rows[2 := [7, 0, 0, 0]][2] != rows[2];
  }

  // The col2 aggregate across a same-partition move.

  /** Each bucket's cached col2 sum is the sum of the col2 values it holds. */
  predicate Col2SumsHold(c2: seq<seq<int>>, sums: seq<int>) {
    |sums| == |c2| && forall b :: 0 <= b < |c2| ==> sums[b] == Sum(c2[b])
  }

  /** The col2 columns after the row at offset `o` of bucket `from` moves to
      bucket `to`: pushed onto `to`, deleted from `from` by swapping in the
      last value. */
  function MoveCol2(c2: seq<seq<int>>, from: nat, o: nat, to: nat): (c2': seq<seq<int>>)
    requires from < |c2| && to < |c2| && from != to && o < |c2[from]|
    ensures |c2'| == |c2| && c2'[to] == c2[to] + [c2[from][o]] && c2'[from] == DeleteSwap(c2[from], o)
    ensures forall b :: 0 <= b < |c2| && b != from && b != to ==> c2'[b] == c2[b]
  {
    c2[to := c2[to] + [c2[from][o]]][from := DeleteSwap(c2[from], o)]
  }

  /** The col2 sums after that move as written: the moved value `x` leaves the
      source bucket's sum and joins no other. */
  function MoveCol2SumsAsWritten(sums: seq<int>, from: nat, x: int): (sums': seq<int>)
    requires from < |sums|
    ensures |sums'| == |sums|
  {
    sums[from := sums[from] - x]
  }

  /** The col2 sums after that move as intended: `x` also joins the sum of the
      bucket the row moves to. */
  function MoveCol2Sums(sums: seq<int>, from: nat, to: nat, x: int): (sums': seq<int>)
    requires from < |sums| && to < |sums|
    ensures |sums'| == |sums|
  {
    sums[from := sums[from] - x][to := sums[to] + x]
  }

  /** As written, moving a row whose col2 is not 0 leaves the destination
      bucket's col2 sum short by that value. */
  lemma MoveCol2SumsAsWrittenBreaks(c2: seq<seq<int>>, sums: seq<int>, from: nat, o: nat, to: nat)
    requires Col2SumsHold(c2, sums)
    requires from < |c2| && to < |c2| && from != to && o < |c2[from]| && c2[from][o] != 0
    ensures !Col2SumsHold(MoveCol2(c2, from, o, to), MoveCol2SumsAsWritten(sums, from, c2[from][o]))
    ensures Sum(MoveCol2(c2, from, o, to)[to]) == MoveCol2SumsAsWritten(sums, from, c2[from][o])[to] + c2[from][o]
  {
    SumAppend(c2[to], c2[from][o]);
  }

  /** As intended, the move keeps every bucket's col2 sum exact. */
  lemma MoveCol2SumsKeeps(c2: seq<seq<int>>, sums: seq<int>, from: nat, o: nat, to: nat)
    requires Col2SumsHold(c2, sums)
    requires from < |c2| && to < |c2| && from != to && o < |c2[from]|
    ensures Col2SumsHold(MoveCol2(c2, from, o, to), MoveCol2Sums(sums, from, to, c2[from][o]))
  {
    SumAppend(c2[to], c2[from][o]);
    SumDeleteSwap(c2[from], o);
  }

  // The last bucket of the predicated update.

  /** As written, the update's last bucket `LastBlockBelow` lies past the
      worker's `nb` buckets exactly when the threshold exceeds
      `MAX_FIELD + idx`; the scan then reads a bucket that does not exist. */
  lemma EndBucketAsWrittenOverruns(p: int, idx: int, nb: nat, t: int)
    requires 0 <= idx < p && Scaled(nb, p) == MAX_FIELD && t >= 0
    ensures LastBlockBelow(t, p, idx) >= nb <==> t > MAX_FIELD + idx
  {
    LastBlockPastEnd(t, p, idx, nb);
  }

  /** One worker (`mask + 1 == 1`, 1024 buckets) and threshold 2000: the scan
      as written runs to bucket 1999, while the clamped scan stops at 1023. */
  lemma EndBucketOneWorker()
    ensures Scaled(1024, 1) == MAX_FIELD
    ensures LastBlockBelow(2000, 1, 0) == 1999 && ClampedLastBlock(2000, 1, 0, 1024) == 1023
  {
    ScaledIsProduct(1024, 1);
  }
}
