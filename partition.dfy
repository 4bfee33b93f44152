/** One partition of the custom table (`CustomTable.Worker`). It owns every row
    whose key `k` satisfies `k & mask == index` and keeps it in bucket
    `k / (mask + 1)`; each bucket holds parallel dense columns (row ids, col1
    as shorts, col2, col3, and the overflow columns col4 .. as shorts). The key
    itself is not stored: it is rebuilt from the bucket number. */
module Partition {
  import opened Common
  import opened Bits
  import opened Wire
  import opened BucketIndex
  import opened BucketColumns
  import opened SlotSums
  import opened Queries
  import opened Transitions

  /** Keys lie in `[0, MAX_FIELD)`. */
  const MAX_FIELD: nat := 1024
  /** Spare slots every bucket gets beyond the rows it holds at load time. */
  const BUCKET_BUFFER: nat := 1000

  /** What a put leaves for the dispatcher: nothing, a migrating row's message
      for the partition that takes it over, or the rejection of a column. */
  datatype PutOutcome =
    | Done
    | Sent(message: seq<Byte>)
    | BadColumn

  /** The rows a partition with `p == mask + 1` and index `idx` owns after
      `put(r, c, v)`; `arrived` is the row a receiving partition reads off the
      queue. A key change that stays in the partition rewrites the key, one
      that leaves it drops the row, and the partition the new key belongs to
      takes the row in. */
  function AfterPut(rows: map<int, seq<int>>, p: nat, idx: int, r: int, c: int, v: int, arrived: MovedRow): map<int, seq<int>>
    requires p > 0
  {
    if r in rows then
      if c < 0 || c >= |rows[r]| then rows
      else if c > 0 then rows[r := rows[r][c := v]]
      else if v == rows[r][0] then rows
      else if v % p == idx then rows[r := rows[r][0 := v]]
      else rows - {r}
    else if c == 0 && v % p == idx then rows[r := Arrived(v, arrived)]
    else rows
  }

  /** The row a receiving partition reads off the queue: the decoded message,
      or no fields when the queue holds no message of the table's width (a
      partition that does not receive never reads it). */
  function Received(m: seq<Byte>, w: nat): (row: MovedRow)
    ensures |m| == 2 * (w + 4) ==> row == Decode(m, w)
  {
    if |m| == 2 * (w + 4) then Decode(m, w) else MovedRow([], 0, 0, 0)
  }

  /** The rows among the first `k` of a loaded table that the partition with
      `p == mask + 1` and index `idx` owns. */
  function Owned(table: seq<seq<int>>, p: nat, idx: int, k: nat): (m: map<int, seq<int>>)
    requires p > 0 && k <= |table|
  {
    map r | 0 <= r < k && |table[r]| > 0 && table[r][0] % p == idx :: table[r]
  }

  /** How many of the first `k` rows of a table fall in bucket `b` of the
      partition with `p == mask + 1` and index `idx`. */
  function BucketCount(table: seq<seq<int>>, p: nat, idx: int, b: int, k: nat): nat
    requires p > 0 && k <= |table|
  {
    if k == 0 then 0
    else BucketCount(table, p, idx, b, k - 1)
         + if |table[k - 1]| > 0 && table[k - 1][0] % p == idx && table[k - 1][0] / p == b then 1 else 0
  }

  lemma {:induction false} BucketCountGrows(table: seq<seq<int>>, p: nat, idx: int, b: int, k: nat, k': nat)
    requires p > 0 && k <= k' <= |table|
    ensures BucketCount(table, p, idx, b, k) <= BucketCount(table, p, idx, b, k')
    decreases k'
  {
    if k < k' {
      BucketCountGrows(table, p, idx, b, k, k' - 1);
    }
  }

  /** Room for each bucket: the rows of its keys plus `BUCKET_BUFFER`. */
  method Capacities(table: seq<seq<int>>, mask: nat, idx: int, nb: nat) returns (caps: seq<int>)
    requires IsPow2(mask + 1) && nb * (mask + 1) == MAX_FIELD
    requires forall r :: 0 <= r < |table| ==> |table[r]| > 0 && 0 <= table[r][0] < MAX_FIELD
    ensures |caps| == nb
    ensures forall b :: 0 <= b < nb ==> caps[b] == BucketCount(table, mask + 1, idx, b, |table|) + BUCKET_BUFFER
  {
    var numRow := CountBuckets(table, mask, idx, nb);
    caps := seq(nb, b requires 0 <= b < nb => numRow[b] + BUCKET_BUFFER);
  }

  /** The loader's state before its last loop: every bucket empty, with room
      for the rows of its keys plus `BUCKET_BUFFER`, and no row indexed. */
  method EmptyWorker(table: seq<seq<int>>, mask: nat, idx: nat, numCols: nat)
    returns (p: nat, nb: nat, caps: seq<int>, cs: Columns, ci: seq<int>, all: seq<int>, col2: seq<int>)
    requires IsPow2(mask + 1) && mask + 1 <= MAX_FIELD && idx <= mask && numCols >= 4
    requires forall r :: 0 <= r < |table| ==> |table[r]| > 0 && 0 <= table[r][0] < MAX_FIELD
    ensures p == mask + 1 && Scaled(nb, p) == MAX_FIELD && |caps| == nb
    ensures Consistent(p, idx, nb, numCols - 4, |table|, caps, cs, ci, all, col2, map[])
    ensures forall b :: 0 <= b < nb ==> |cs.ids[b]| == BucketCount(table, p, idx, b, 0)
    ensures forall b :: 0 <= b < nb ==> caps[b] > BucketCount(table, p, idx, b, |table|)
  {
    p := mask + 1;
    MaxFieldIsPow2();
    Pow2Divides(p, MAX_FIELD);
    nb := MAX_FIELD / p;
    ScaledIsProduct(nb, p);
    caps := Capacities(table, mask, idx, nb);
    cs := EmptyColumns(nb);
    ci := seq(2 * |table|, i => -1);
    all, col2 := seq(nb, b => 0), seq(nb, b => 0);
    EmptyConsistent(p, idx, nb, numCols - 4, |table|, caps);
  }

  /** Taking one more row of the table takes it in exactly when it is owned. */
  lemma OwnedStep(table: seq<seq<int>>, p: nat, idx: int, k: nat)
    requires p > 0 && k < |table|
    ensures Owned(table, p, idx, k + 1)
            == if |table[k]| > 0 && table[k][0] % p == idx then Owned(table, p, idx, k)[k := table[k]]
               else Owned(table, p, idx, k)
    ensures k !in Owned(table, p, idx, k)
  {
  }

  /** A stored row is its key followed by what a migration carries. */
  lemma ArrivedRow(row: seq<int>)
    requires |row| >= 4
    ensures Arrived(row[0], MovedRow(row[4..], row[1], row[2], row[3])) == row
  {
    assert [row[0], row[1], row[2], row[3]] + row[4..] == row;
  }

  lemma MaxFieldIsPow2()
    ensures IsPow2(MAX_FIELD)
  {
    assert IsPow2(2) && IsPow2(4) && IsPow2(8) && IsPow2(16) && IsPow2(32);
    assert IsPow2(64) && IsPow2(128) && IsPow2(256) && IsPow2(512);
  }

  lemma BucketBelow(k: int, p: nat, nb: nat)
    requires p > 0 && nb * p == MAX_FIELD && 0 <= k < MAX_FIELD
    ensures 0 <= k / p < nb
  {
    DivMod(k, p);
    KeyOrder(k / p, k % p, nb, 0, p);
    assert p * (k / p) == (k / p) * p;
  }

  /** The loader's count of the rows each bucket gets (`numRow`); every key
      must lie in `[0, MAX_FIELD)`, as the loader checks. */
  method CountBuckets(table: seq<seq<int>>, mask: nat, idx: int, nb: nat) returns (numRow: seq<int>)
    requires IsPow2(mask + 1) && nb * (mask + 1) == MAX_FIELD
    requires forall r :: 0 <= r < |table| ==> |table[r]| > 0 && 0 <= table[r][0] < MAX_FIELD
    ensures |numRow| == nb && forall b :: 0 <= b < nb ==> numRow[b] == BucketCount(table, mask + 1, idx, b, |table|)
  {
    var p := mask + 1;
    numRow := seq(nb, b => 0);
    var rowId := 0;
    while rowId < |table|
      invariant 0 <= rowId <= |table| && |numRow| == nb
      invariant forall b :: 0 <= b < nb ==> numRow[b] == BucketCount(table, p, idx, b, rowId)
    {
      var field0 := table[rowId][0];
      BitAndLowMask(field0, p);
      if BitAnd(field0, mask) == idx {
        var b := field0 / p;
        BucketBelow(field0, p, nb);
        numRow := numRow[b := numRow[b] + 1];
      }
      rowId := rowId + 1;
    }
  }

  /** A row arriving at the partition that owns its new key keeps the stored
      state consistent and adds the key to the running key sum. */
  lemma {:induction false} ReceiveStep(p: int, idx: int, nb: nat, w: nat, n: nat, caps: seq<int>,
                    cs: Columns, ci: seq<int>, all: seq<int>, col2: seq<int>, rows: map<int, seq<int>>, sum0: int,
                    r: int, b: int, key: int, m: MovedRow, slots: int)
    requires Consistent(p, idx, nb, w, n, caps, cs, ci, all, col2, rows) && sum0 == RowTotal(rows, KeySum, n)
    requires 0 <= r < n && r !in rows && 0 <= b < nb && |cs.ids[b]| < caps[b] && key == Scaled(b, p) + idx
    requires IsShort(m.col1) && IsShort(m.col2) && |m.rest| == w && AllShorts(m.rest)
    requires slots == Sum(m.rest) + m.col1 + m.col2
    ensures Consistent(p, idx, nb, w, n, caps, Push(cs, b, r, m.col1, m.col2, m.col3, m.rest),
                       ci[2 * r := b][2 * r + 1 := |cs.ids[b]|], all[b := all[b] + key + m.col3 + slots],
                       col2[b := col2[b] + m.col2], rows[r := Arrived(key, m)])
    ensures sum0 + key == RowTotal(rows[r := Arrived(key, m)], KeySum, n)
  {
    ReceiveKeeps(p, idx, nb, w, n, caps, cs, ci, all, col2, rows, r, b, m.col1, m.col2, m.col3, m.rest);
    assert all[b := all[b] + key + m.col3 + slots] == all[b := all[b] + key + m.col1 + m.col2 + m.col3 + Sum(m.rest)];
    assert Arrived(key, m) == [key, m.col1, m.col2, m.col3] + m.rest;
    RowTotalDiffer(rows, rows[r := Arrived(key, m)], KeySum, n, r);
  }

  /** A row leaving the partition: its slot is deleted by swap, its index
      entry cleared, and its fields and key taken off the aggregates and the
      key sum; the row is its key followed by what its slot held. */
  lemma {:induction false} SendStep(p: int, idx: int, nb: nat, w: nat, n: nat, caps: seq<int>,
                                    cs: Columns, ci: seq<int>, all: seq<int>, col2: seq<int>, rows: map<int, seq<int>>,
                                    sum0: int, r: int, key: int, s: int)
    requires Consistent(p, idx, nb, w, n, caps, cs, ci, all, col2, rows) && sum0 == RowTotal(rows, KeySum, n)
    requires r in rows && 0 <= r < n
    requires var b, o := ci[2 * r], ci[2 * r + 1];
             Fits(cs, b, o) && key == Scaled(b, p) + idx && s == RestSum(cs, b, o)
    ensures var b, o := ci[2 * r], ci[2 * r + 1];
            && rows[r] == Arrived(key, MovedRow(cs.rest[b][o], cs.c1[b][o], cs.c2[b][o], cs.c3[b][o]))
            && |cs.c1[b]| == |cs.ids[b]| && |cs.c2[b]| == |cs.ids[b]| && |cs.c3[b]| == |cs.ids[b]| && |cs.rest[b]| == |cs.ids[b]|
            && PointsBack(cs.ids, ci, b, |cs.ids[b]| - 1)
            && Consistent(p, idx, nb, w, n, caps, Delete(cs, b, o), Relink(ci[2 * r := -1][2 * r + 1 := -1], cs.ids, b, o),
                          all[b := all[b] - s - key], col2[b := col2[b] - cs.c2[b][o]], rows - {r})
            && sum0 - key == RowTotal(rows - {r}, KeySum, n)
  {
    SendKeeps(p, idx, nb, w, n, caps, cs, ci, all, col2, rows, r, key, s);
    assert Holds(cs, ci, p, idx, r, rows[r]);
    RowTotalDiffer(rows, rows - {r}, KeySum, n, r);
  }

  /** The receiver's loop adding up the first `k` shorts of a message. */
  method SlotSum(m: seq<Byte>, k: nat) returns (t: int)
    requires 2 * k <= |m|
    ensures t == Sum(Slots(m, k))
  {
    t := 0;
    var i := 0;
    while i < k
      invariant 0 <= i <= k
      invariant t == Sum(Slots(m, k)[..i])
    {
      assert Slots(m, k)[..i + 1] == Slots(m, k)[..i] + [SlotAt(m, i)];
      SumAppend(Slots(m, k)[..i], SlotAt(m, i));
      t := t + SlotAt(m, i);
      i := i + 1;
    }
    assert Slots(m, k)[..i] == Slots(m, k);
  }

  /** `size--` on one dense column of a bucket, then its last element copied
      into slot `o` unless `o` was the last slot. */
  method RemoveSlot<T>(s: seq<T>, o: nat) returns (r: seq<T>)
    requires o < |s|
    ensures r == DeleteSwap(s, o)
  {
    var last := |s| - 1;
    r := s[..last];
    if o != last {
      r := r[o := s[last]];
    }
  }

  /** The delete-by-swap of slot `(b, o)`: every column of the bucket loses
      its last slot, whose row is copied into `o` and whose index entry is
      rewritten to `o`, unless `o` was the last slot. */
  method RemoveRowSlot(cs: Columns, ci: seq<int>, b: nat, o: nat) returns (cs': Columns, ci': seq<int>)
    requires Fits(cs, b, o)
    requires |cs.c1[b]| == |cs.ids[b]| && |cs.c2[b]| == |cs.ids[b]| && |cs.c3[b]| == |cs.ids[b]| && |cs.rest[b]| == |cs.ids[b]|
    requires 0 <= cs.ids[b][|cs.ids[b]| - 1] && 2 * cs.ids[b][|cs.ids[b]| - 1] + 1 < |ci|
    ensures cs' == Delete(cs, b, o) && ci' == Relink(ci, cs.ids, b, o)
  {
    var last := |cs.ids[b]| - 1;
    var movedRow := cs.ids[b][last];
    var ids := RemoveSlot(cs.ids[b], o);
    var c1 := RemoveSlot(cs.c1[b], o);
    var c2 := RemoveSlot(cs.c2[b], o);
    var c3 := RemoveSlot(cs.c3[b], o);
    var rest := RemoveSlot(cs.rest[b], o);
    cs' := Columns(cs.ids[b := ids], cs.c1[b := c1], cs.c2[b := c2], cs.c3[b := c3], cs.rest[b := rest]);
    ci' := ci;
    if o != last {
      ci' := ci'[2 * movedRow := b][2 * movedRow + 1 := o];
    }
  }

  /** Row `r` taken out of the slot its index entry names, by the delete by
      swap: `cs'` and `ci'` are the columns and the index after `Delete` and
      `Relink`, with `r`'s own entry cleared, and `m` is what the slot held
      besides the key. */
  ghost predicate TakenFrom(cs: Columns, ci: seq<int>, r: int, cs': Columns, ci': seq<int>, m: MovedRow) {
    && 0 <= r && 2 * r + 1 < |ci|
    && (var b, o := ci[2 * r], ci[2 * r + 1];
        && Fits(cs, b, o)
        && |cs.c1[b]| == |cs.ids[b]| && |cs.c2[b]| == |cs.ids[b]| && |cs.c3[b]| == |cs.ids[b]| && |cs.rest[b]| == |cs.ids[b]|
        && 0 <= cs.ids[b][|cs.ids[b]| - 1] && 2 * cs.ids[b][|cs.ids[b]| - 1] + 1 < |ci|
        && m == MovedRow(cs.rest[b][o], cs.c1[b][o], cs.c2[b][o], cs.c3[b][o])
        && cs' == Delete(cs, b, o)
        && ci' == Relink(ci[2 * r := -1][2 * r + 1 := -1], cs.ids, b, o))
  }

  /** Row `r` with fields `m` pushed onto bucket `b`, its index entry naming
      the new last slot. */
  ghost predicate PushedTo(cs: Columns, ci: seq<int>, r: int, b: int, m: MovedRow, cs': Columns, ci': seq<int>) {
    && 0 <= r && 2 * r + 1 < |ci|
    && 0 <= b < |cs.ids| && b < |cs.c1| && b < |cs.c2| && b < |cs.c3| && b < |cs.rest|
    && cs' == Push(cs, b, r, m.col1, m.col2, m.col3, m.rest)
    && ci' == ci[2 * r := b][2 * r + 1 := |cs.ids[b]|]
  }

  /** The source's order for moving row `r` to bucket `nb'`: the row is pushed
      onto `nb'` and its entry pointed there, then its old slot is deleted by
      swap; `cs'` and `ci'` are the columns and the index that result. */
  ghost predicate AppendedThenDeleted(cs: Columns, ci: seq<int>, r: int, nb': int, cs': Columns, ci': seq<int>) {
    && 0 <= r && 2 * r + 1 < |ci|
    && 0 <= nb' < |cs.ids| && nb' < |cs.c1| && nb' < |cs.c2| && nb' < |cs.c3| && nb' < |cs.rest|
    && (var b, o := ci[2 * r], ci[2 * r + 1];
        && Fits(cs, b, o)
        && (var cs1 := Push(cs, nb', r, cs.c1[b][o], cs.c2[b][o], cs.c3[b][o], cs.rest[b][o]);
            var ci1 := ci[2 * r := nb'][2 * r + 1 := |cs.ids[nb']|];
            && Fits(cs1, b, o)
            && |cs1.c1[b]| == |cs1.ids[b]| && |cs1.c2[b]| == |cs1.ids[b]| && |cs1.c3[b]| == |cs1.ids[b]|
            && |cs1.rest[b]| == |cs1.ids[b]|
            && 0 <= cs1.ids[b][|cs1.ids[b]| - 1] && 2 * cs1.ids[b][|cs1.ids[b]| - 1] + 1 < |ci1|
            && cs' == Delete(cs1, b, o)
            && ci' == Relink(ci1, cs1.ids, b, o)))
  }

  /** Taking row `r` out of its slot and then pushing it onto another bucket
      `nb'` leaves the columns and the index the source's order leaves. */
  lemma TakeThenPush(cs: Columns, ci: seq<int>, r: int, nb': int, m: MovedRow,
                     cs2: Columns, ci2: seq<int>, cs3: Columns, ci3: seq<int>)
    requires TakenFrom(cs, ci, r, cs2, ci2, m) && PushedTo(cs2, ci2, r, nb', m, cs3, ci3)
    requires Fits(cs, ci[2 * r], ci[2 * r + 1]) && cs.ids[ci[2 * r]][ci[2 * r + 1]] == r && nb' != ci[2 * r]
    requires PointsBack(cs.ids, ci, ci[2 * r], ci[2 * r + 1])
    requires PointsBack(cs.ids, ci, ci[2 * r], |cs.ids[ci[2 * r]]| - 1)
    ensures AppendedThenDeleted(cs, ci, r, nb', cs3, ci3)
  {
    var b, o := ci[2 * r], ci[2 * r + 1];
    AppendDeleteCommute(cs, ci, b, o, nb');
  }

  /** Row `r` taken out of a consistent partition: the columns and the index
      after the delete by swap, both aggregates of its bucket lowered by what
      the row added to them, its key off the key sum, and what the row held
      besides its key; every other bucket keeps its row ids. */
  method TakeSlot(p: int, idx: int, nb: nat, w: nat, n: nat, caps: seq<int>, cs: Columns, ci: seq<int>,
                  all: seq<int>, col2: seq<int>, ghost rows: map<int, seq<int>>, sum0: int, r: int)
    returns (cs': Columns, ci': seq<int>, all': seq<int>, col2': seq<int>, key: int, m: MovedRow)
    requires Consistent(p, idx, nb, w, n, caps, cs, ci, all, col2, rows) && sum0 == RowTotal(rows, KeySum, n)
    requires r in rows
    ensures Consistent(p, idx, nb, w, n, caps, cs', ci', all', col2', rows - {r})
    ensures sum0 - key == RowTotal(rows - {r}, KeySum, n)
    ensures rows[r] == Arrived(key, m)
    ensures IsShort(m.col1) && IsShort(m.col2) && |m.rest| == w && AllShorts(m.rest)
    ensures 0 <= r < n && |cs'.ids| == |cs.ids|
    ensures forall b :: 0 <= b < |cs.ids| && b != ci[2 * r] ==> cs'.ids[b] == cs.ids[b]
    ensures TakenFrom(cs, ci, r, cs', ci', m)
  {
    SlotOf(p, idx, nb, w, n, caps, cs, ci, all, col2, rows, r);
    var b, o := ci[2 * r], ci[2 * r + 1];
    ScaledIsProduct(b, p);
    key := b * p + idx;
    m := MovedRow(cs.rest[b][o], cs.c1[b][o], cs.c2[b][o], cs.c3[b][o]);
    var restSum := SumShorts(m.rest);
    var sum := m.col1 + m.col2 + m.col3 + restSum;
    cs', ci' := RemoveRowSlot(cs, ci[2 * r := -1][2 * r + 1 := -1], b, o);
    all' := all[b := all[b] - sum - key];
    col2' := col2[b := col2[b] - m.col2];
    SendStep(p, idx, nb, w, n, caps, cs, ci, all, col2, rows, sum0, r, key, sum);
  }

  /** Row `r` with key `key` and other fields `m` appended to bucket `b` of a
      consistent partition (the five `push` calls): its index entry points at
      the new last slot, and both aggregates of the bucket and the key sum
      grow by what the row holds; `slots` is what col1, col2 and the overflow
      fields add up to. Only bucket `b` grows, by one slot. */
  method PlaceRow(p: int, idx: int, nb: nat, w: nat, n: nat, caps: seq<int>, cs: Columns, ci: seq<int>,
                  all: seq<int>, col2: seq<int>, ghost rows: map<int, seq<int>>, sum0: int,
                  r: int, b: int, key: int, m: MovedRow, slots: int)
    returns (cs': Columns, ci': seq<int>, all': seq<int>, col2': seq<int>)
    requires Consistent(p, idx, nb, w, n, caps, cs, ci, all, col2, rows) && sum0 == RowTotal(rows, KeySum, n)
    requires 0 <= r < n && r !in rows && 0 <= b < nb && |cs.ids[b]| < caps[b] && key == Scaled(b, p) + idx
    requires IsShort(m.col1) && IsShort(m.col2) && |m.rest| == w && AllShorts(m.rest)
    requires slots == Sum(m.rest) + m.col1 + m.col2
    ensures Consistent(p, idx, nb, w, n, caps, cs', ci', all', col2', rows[r := Arrived(key, m)])
    ensures sum0 + key == RowTotal(rows[r := Arrived(key, m)], KeySum, n)
    ensures |cs'.ids| == |cs.ids|
    ensures forall b' :: 0 <= b' < |cs.ids| ==> |cs'.ids[b']| == |cs.ids[b']| + if b' == b then 1 else 0
    ensures PushedTo(cs, ci, r, b, m, cs', ci')
  {
    cs' := Push(cs, b, r, m.col1, m.col2, m.col3, m.rest);
    ci' := ci[2 * r := b][2 * r + 1 := |cs.ids[b]|];
    all' := all[b := all[b] + key + m.col3 + slots];
    col2' := col2[b := col2[b] + m.col2];
    ReceiveStep(p, idx, nb, w, n, caps, cs, ci, all, col2, rows, sum0, r, b, key, m, slots);
  }

  /** A put of non-key field `c` of owned row `r` (`colId` 1, 2, 3 or an
      overflow column): the cell is overwritten and the aggregates of the
      row's bucket move by the difference; an overflow put of the value
      already there changes nothing. */
  method WriteCell(p: int, idx: int, nb: nat, w: nat, n: nat, caps: seq<int>, cs: Columns, ci: seq<int>,
                   all: seq<int>, col2: seq<int>, ghost rows: map<int, seq<int>>, r: int, c: int, v: int)
    returns (cs': Columns, all': seq<int>, col2': seq<int>)
    requires Consistent(p, idx, nb, w, n, caps, cs, ci, all, col2, rows)
    requires r in rows && 1 <= c < 4 + w && (c == 3 || IsShort(v))
    ensures c < |rows[r]|
    ensures Consistent(p, idx, nb, w, n, caps, cs', ci, all', col2', rows[r := rows[r][c := v]])
  {
    SlotOf(p, idx, nb, w, n, caps, cs, ci, all, col2, rows, r);
    var b, o := ci[2 * r], ci[2 * r + 1];
    var was := if c == 1 then cs.c1[b][o] else if c == 2 then cs.c2[b][o] else if c == 3 then cs.c3[b][o]
               else cs.rest[b][o][c - 4];
    assert |cs.rest[b][o]| == w && rows[r][c] == was;
    if c > 3 {
      if was == v {
        assert rows[r][c := v] == rows[r];
        assert rows[r := rows[r][c := v]] == rows;
        return cs, all, col2;
      }
      cs' := cs.(rest := cs.rest[b := cs.rest[b][o := cs.rest[b][o][c - 4 := v]]]);
      all' := all[b := all[b] + v - was];
      col2' := col2;
    } else if c == 1 {
      all' := all[b := all[b] - was + v];
      cs' := cs.(c1 := cs.c1[b := cs.c1[b][o := v]]);
      col2' := col2;
    } else if c == 2 {
      all' := all[b := all[b] - was + v];
      col2' := col2[b := col2[b] - was + v];
      cs' := cs.(c2 := cs.c2[b := cs.c2[b][o := v]]);
    } else {
      cs' := cs.(c3 := cs.c3[b := cs.c3[b][o := v]]);
      all' := all[b := all[b] - was + v];
      col2' := col2;
    }
    CellKeeps(p, idx, nb, w, n, caps, cs, ci, all, col2, rows, r, c, v, cs', all', col2');
  }

  /** Overwriting a non-key field leaves the key sum alone. */
  lemma CellKeySum(rows: map<int, seq<int>>, n: nat, r: int, c: int, v: int)
    requires r in rows && 1 <= c < |rows[r]|
    ensures RowTotal(rows[r := rows[r][c := v]], KeySum, n) == RowTotal(rows, KeySum, n)
  {
    RowTotalDiffer(rows, rows[r := rows[r][c := v]], KeySum, n, r);
  }

  /** The loops of `workerPredicatedUpdate` over buckets `0 .. end`: each
      bucket's size is counted, its col2 total added to its total of all
      fields, and col2 added to col3 slot by slot. */
  method UpdateBuckets(c3: seq<seq<int>>, c2: seq<seq<int>>, all: seq<int>, col2: seq<int>, end: int)
    returns (c3': seq<seq<int>>, all': seq<int>, count: int)
    requires |c2| == |c3| && |all| == |c3| && |col2| == |c3| && -1 <= end < |c3|
    requires forall b :: 0 <= b < |c3| ==> |c2[b]| == |c3[b]|
    ensures c3' == AddBelow(c3, c2, end) && all' == AddSumsBelow(all, col2, end)
    ensures count == Sizes(c3[..end + 1])
  {
    c3', all', count := c3, all, 0;
    var i := 0;
    while i <= end
      invariant 0 <= i <= end + 1
      invariant |c3'| == |c3| && |all'| == |all|
      invariant forall b :: 0 <= b < |c3| ==> c3'[b] == if b < i then AddColumns(c3[b], c2[b]) else c3[b]
      invariant forall b :: 0 <= b < |all| ==> all'[b] == if b < i then all[b] + col2[b] else all[b]
      invariant count == Sizes(c3[..i])
    {
      assert c3[..i + 1][..i] == c3[..i];
      count := count + |c3'[i]|;
      all' := all'[i := all'[i] + col2[i]];
      var row := c3'[i];
      var j := 0;
      while j < |row|
        invariant 0 <= j <= |row| && |row| == |c3[i]|
        invariant forall k :: 0 <= k < |row| ==> row[k] == if k < j then c3[i][k] + c2[i][k] else c3[i][k]
      {
        row := row[j := row[j] + c2[i][j]];
        j := j + 1;
      }
      assert row == AddColumns(c3[i], c2[i]);
      c3' := c3'[i := row];
      i := i + 1;
    }
    assert c3' == AddBelow(c3, c2, end);
    assert all' == AddSumsBelow(all, col2, end);
  }

  /** The loop that adds up a row of overflow shorts. */
  method SumShorts(s: seq<int>) returns (t: int)
    ensures t == Sum(s)
  {
    t := 0;
    var i := 0;
    while i < |s|
      invariant 0 <= i <= |s|
      invariant t == Sum(s[..i])
    {
      assert s[..i + 1] == s[..i] + [s[i]];
      SumAppend(s[..i], s[i]);
      t := t + s[i];
      i := i + 1;
    }
    assert s[..i] == s;
  }

  class Worker {
    const mask: nat
    const maskP1: nat
    const index: nat
    const numBuckets: nat
    const totalCols: nat
    /** Number of rows of the loaded table; the index has two slots per row. */
    const numRows: nat
    /** Capacity of each bucket, fixed at load time. */
    const capacity: seq<int>

    /** `bucket_row`, `buckets1`, `buckets2`, `buckets3`, `bucket_rest`: the live
        prefix (the first `size` slots) of every bucket's columns. */
    var bucketRow: seq<seq<int>>
    var buckets1: seq<seq<int>>
    var buckets2: seq<seq<int>>
    var buckets3: seq<seq<int>>
    var bucketRest: seq<seq<seq<int>>>
    /** `col0_index`: bucket at `2r`, offset at `2r + 1`, or -1 twice. */
    var col0Index: seq<int>
    var col0Sum: int
    var bucketSumAll: seq<int>
    var bucketSumCol2: seq<int>

    /** The rows this partition owns, by row id, each as its `totalCols` fields. */
    ghost var rows: map<int, seq<int>>

    function Cols(): Columns
      reads this
    {
      Columns(bucketRow, buckets1, buckets2, buckets3, bucketRest)
    }

    /** The worker's constructor: count the rows of each bucket, give every
        bucket room for that many plus `BUCKET_BUFFER`, then append every row
        whose key the partition owns (`key & mask == index`) to the bucket of
        its key. The loader rejects a key outside `[0, MAX_FIELD)`. */
    constructor Load(table: seq<seq<int>>, mask: nat, index: nat, numCols: nat)
      requires IsPow2(mask + 1) && mask + 1 <= MAX_FIELD && index <= mask && numCols >= 4
      requires forall r :: 0 <= r < |table| ==>
                 && |table[r]| == numCols && 0 <= table[r][0] < MAX_FIELD
                 && IsShort(table[r][1]) && IsShort(table[r][2]) && AllShorts(table[r][4..])
      ensures Valid() && this.mask == mask && this.index == index && totalCols == numCols && numRows == |table|
      ensures rows == Owned(table, mask + 1, index, |table|)
    {
      var p, nb, caps, cs, ci, all, col2 := EmptyWorker(table, mask, index, numCols);
      this.mask, maskP1, this.index, numBuckets, totalCols, numRows := mask, p, index, nb, numCols, |table|;
      capacity := caps;
      bucketRow, buckets1, buckets2, buckets3, bucketRest := cs.ids, cs.c1, cs.c2, cs.c3, cs.rest;
      col0Index, col0Sum, bucketSumAll, bucketSumCol2 := ci, 0, all, col2;
      rows := map[];
      new;
      assert Cols() == cs;
      RowTotalOfZero(rows, KeySum, numRows);
      LoadRows(table);
    }

    /** The loader's last loop, over every row of the table. */
    method LoadRows(table: seq<seq<int>>)
      requires Valid() && |table| == numRows && rows == map[]
      requires forall r :: 0 <= r < |table| ==>
                 && |table[r]| == totalCols && 0 <= table[r][0] < MAX_FIELD
                 && IsShort(table[r][1]) && IsShort(table[r][2]) && AllShorts(table[r][4..])
      requires forall b :: 0 <= b < numBuckets ==> |bucketRow[b]| == BucketCount(table, maskP1, index, b, 0)
      requires forall b :: 0 <= b < numBuckets ==> capacity[b] > BucketCount(table, maskP1, index, b, |table|)
      modifies this
      ensures Valid() && rows == Owned(table, maskP1, index, |table|)
    {
      var rowId := 0;
      assert Owned(table, maskP1, index, 0) == map[];
      while rowId < |table|
        invariant 0 <= rowId <= |table| && Valid()
        invariant rows == Owned(table, maskP1, index, rowId)
        invariant forall b :: 0 <= b < numBuckets ==> |bucketRow[b]| == BucketCount(table, maskP1, index, b, rowId)
      {
        LoadRow(table, rowId);
        rowId := rowId + 1;
      }
    }

    /** One pass of the loader's last loop: row `rowId` of the table is
        appended to the bucket of its key when the partition owns it. */
    method LoadRow(table: seq<seq<int>>, rowId: nat)
      requires Valid() && rowId < |table| == numRows
      requires forall r :: 0 <= r < |table| ==>
                 && |table[r]| == totalCols && 0 <= table[r][0] < MAX_FIELD
                 && IsShort(table[r][1]) && IsShort(table[r][2]) && AllShorts(table[r][4..])
      requires rows == Owned(table, maskP1, index, rowId)
      requires forall b :: 0 <= b < numBuckets ==> |bucketRow[b]| == BucketCount(table, maskP1, index, b, rowId)
      requires forall b :: 0 <= b < numBuckets ==> capacity[b] > BucketCount(table, maskP1, index, b, |table|)
      modifies this
      ensures Valid() && rows == Owned(table, maskP1, index, rowId + 1)
      ensures forall b :: 0 <= b < numBuckets ==> |bucketRow[b]| == BucketCount(table, maskP1, index, b, rowId + 1)
    {
      var row := table[rowId];
      var field0 := row[0];
      OwnedStep(table, maskP1, index, rowId);
      BitAndLowMask(field0, maskP1);
      if BitAnd(field0, mask) == index {
        KeyOfField(field0);
        BucketCountGrows(table, maskP1, index, field0 / maskP1, rowId + 1, |table|);
        var restSum := SumShorts(row[4..]);
        var m := MovedRow(row[4..], row[1], row[2], row[3]);
        ArrivedRow(row);
        AppendRow(rowId, field0, m, restSum + row[1] + row[2]);
      }
    }

    /** The key every row of bucket `b` has in this partition. */
    function Key(b: int): int
      reads this
    {
      Scaled(b, maskP1) + index
    }

    ghost predicate Config()
      reads this
    {
      && maskP1 == mask + 1 && IsPow2(maskP1) && maskP1 <= MAX_FIELD && index < maskP1
      && Scaled(numBuckets, maskP1) == MAX_FIELD
      && totalCols >= 4 && |capacity| == numBuckets
    }

    /** Everything but the running key sum: the layout of the buckets, the index
        and the row-id columns as mutual inverses, the logical rows as what is
        stored, and the two per-bucket aggregates as brute-force sums. */
    ghost predicate Stored()
      reads this
    {
      Config() && Consistent(maskP1, index, numBuckets, totalCols - 4, numRows, capacity,
                             Cols(), col0Index, bucketSumAll, bucketSumCol2, rows)
    }

    ghost predicate Valid()
      reads this
    {
      Stored() && col0Sum == RowTotal(rows, KeySum, numRows)
    }

    /** Bucket `b`'s rows all have a key of this partition, and that key names `b`. */
    lemma KeyFacts(b: int)
      requires Config() && 0 <= b < numBuckets
      ensures 0 <= Key(b) < MAX_FIELD && Key(b) % maskP1 == index && Key(b) / maskP1 == b
    {
      ScaledIsProduct(b, maskP1);
      ScaledIsProduct(numBuckets, maskP1);
      KeyOrder(b, index, numBuckets, 0, maskP1);
      ModFromParts(Key(b), maskP1, b, index);
    }

    /** A key in range falls in one of the buckets. */
    lemma BucketOfKey(k: int)
      requires Config() && 0 <= k < MAX_FIELD
      ensures 0 <= k / maskP1 < numBuckets && k == (k / maskP1) * maskP1 + k % maskP1
    {
      ScaledIsProduct(numBuckets, maskP1);
      KeyOrder(k / maskP1, k % maskP1, numBuckets, 0, maskP1);
    }

    /** The row in slot `(b, o)` is an owned row, stored there with its fields. */
    lemma SlotRow(b: int, o: int)
      requires Stored() && 0 <= b < numBuckets && 0 <= o < |bucketRow[b]|
      ensures var r := bucketRow[b][o];
              && 0 <= r < numRows && r in rows && col0Index[2 * r] == b && col0Index[2 * r + 1] == o
              && Fits(Cols(), b, o) && rows[r] == Row(Cols(), Key(b), b, o)
    {
      assert PointsBack(bucketRow, col0Index, b, o);
      var r := bucketRow[b][o];
      assert r in rows;
      assert Holds(Cols(), col0Index, maskP1, index, r, rows[r]);
    }

    /** Every owned row has `totalCols` fields, col1 and the overflow columns as
        shorts, and a key in range that this partition owns. */
    lemma RowFacts(r: int)
      requires Stored() && r in rows
      ensures 0 <= r < numRows && 0 <= col0Index[2 * r] < numBuckets
      ensures Fits(Cols(), col0Index[2 * r], col0Index[2 * r + 1])
      ensures bucketRow[col0Index[2 * r]][col0Index[2 * r + 1]] == r
      ensures rows[r] == Row(Cols(), Key(col0Index[2 * r]), col0Index[2 * r], col0Index[2 * r + 1])
      ensures |rows[r]| == totalCols && IsShort(rows[r][1]) && AllShorts(rows[r][4..])
      ensures 0 <= rows[r][0] < MAX_FIELD && rows[r][0] % maskP1 == index && rows[r][0] / maskP1 == col0Index[2 * r]
    {
      assert Holds(Cols(), col0Index, maskP1, index, r, rows[r]);
      var b, o := col0Index[2 * r], col0Index[2 * r + 1];
      assert BucketLayout(bucketRow[b], buckets1[b], buckets2[b], buckets3[b], bucketRest[b], capacity[b], totalCols - 4);
      KeyFacts(b);
    }

    /** Adding up over every slot is adding up over the owned rows. */
    lemma SlotsAreRows(q: Query)
      requires Stored()
      ensures SlotTotal(rows, q, bucketRow) == RowTotal(rows, q, numRows)
    {
      SlotsCoverRange(rows, q, bucketRow, col0Index, numRows);
      RangeIsRowTotal(rows, q, col0Index, numRows);
    }

    /** `workerGetIntField`: the field of an owned row, or -1 for a row owned elsewhere. */
    method GetIntField(rowId: nat, colId: nat) returns (field: int)
      requires Valid() && rowId < numRows && colId < totalCols
      ensures rowId in rows ==> colId < |rows[rowId]| && field == rows[rowId][colId]
      ensures rowId !in rows ==> field == -1
    {
      var bucket := col0Index[2 * rowId];
      if bucket < 0 {
        return -1;
      }
      RowFacts(rowId);
      if colId == 0 {
        return bucket * maskP1 + index;
      }
      var bucketIndex := col0Index[2 * rowId + 1];
      if colId == 1 {
        field := buckets1[bucket][bucketIndex];
      } else if colId == 2 {
        field := buckets2[bucket][bucketIndex];
      } else if colId == 3 {
        field := buckets3[bucket][bucketIndex];
      } else {
        field := bucketRest[bucket][bucketIndex][colId - 4];
      }
    }

    /** Bucket `b` can take one more row without outgrowing its buffer. */
    ghost predicate HasRoom(b: int)
      reads this
    {
      0 <= b < |bucketRow| && b < |capacity| && |bucketRow[b]| < capacity[b]
    }

    /** A key this partition owns names a bucket whose key it is. */
    lemma KeyOfField(field: int)
      requires Config() && 0 <= field < MAX_FIELD && field % maskP1 == index
      ensures 0 <= field / maskP1 < numBuckets && Key(field / maskP1) == field
    {
      BucketOfKey(field);
      KeyIs(field / maskP1);
    }

    /** Replaces the stored columns, the index and the aggregates at once. */
    method Install(cs: Columns, ci: seq<int>, sum0: int, all: seq<int>, col2: seq<int>, ghost rs: map<int, seq<int>>)
      modifies this
      ensures Cols() == cs && col0Index == ci && col0Sum == sum0
      ensures bucketSumAll == all && bucketSumCol2 == col2 && rows == rs
    {
      rows := rs;
      bucketRow, buckets1, buckets2, buckets3, bucketRest := cs.ids, cs.c1, cs.c2, cs.c3, cs.rest;
      col0Index, col0Sum, bucketSumAll, bucketSumCol2 := ci, sum0, all, col2;
    }

    /** Appends row `rowId`, with key `key` and other fields `m`, to the
        bucket of its key (the five `push` calls), points its index entry
        there, and counts it in the key sum and in both aggregates of that
        bucket; `slots` is what col1, col2 and the overflow fields add up to. */
    method AppendRow(rowId: nat, key: int, m: MovedRow, slots: int)
      requires Valid() && rowId < numRows && rowId !in rows
      requires 0 <= key < MAX_FIELD && key % maskP1 == index && HasRoom(key / maskP1)
      requires IsShort(m.col1) && IsShort(m.col2) && |m.rest| == totalCols - 4 && AllShorts(m.rest)
      requires slots == Sum(m.rest) + m.col1 + m.col2
      modifies this
      ensures Valid()
      ensures rows == old(rows)[rowId := Arrived(key, m)]
      ensures |bucketRow| == old(|bucketRow|)
      ensures forall b :: 0 <= b < |bucketRow| ==> |bucketRow[b]| == old(|bucketRow[b]|) + if b == key / maskP1 then 1 else 0
      ensures PushedTo(old(Cols()), old(col0Index), rowId, key / maskP1, m, Cols(), col0Index)
    {
      var bucket := key / maskP1;
      KeyOfField(key);
      var sum0 := col0Sum;
      ghost var rs := rows[rowId := Arrived(key, m)];
      var cs, ci, all, col2 := PlaceRow(maskP1, index, numBuckets, totalCols - 4, numRows, capacity, Cols(),
                                        col0Index, bucketSumAll, bucketSumCol2, rows, sum0, rowId, bucket, key, m, slots);
      Install(cs, ci, sum0 + key, all, col2, rs);
    }

    /** Deletes row `rowId` by swap (`size--` on every column, the last row of
        the bucket copied into the freed slot and its index entry relinked),
        clears the row's index entry, and takes its fields off the aggregates
        of its bucket and its key off the key sum. `m` is what the row held
        besides its key; no other bucket changes. */
    method RemoveRow(rowId: nat) returns (m: MovedRow)
      requires Valid() && rowId in rows
      modifies this
      ensures Valid()
      ensures rows == old(rows) - {rowId}
      ensures |old(rows)[rowId]| > 0 && old(rows)[rowId] == Arrived(old(rows)[rowId][0], m)
      ensures IsShort(m.col1) && IsShort(m.col2) && |m.rest| == totalCols - 4 && AllShorts(m.rest)
      ensures |bucketRow| == old(|bucketRow|)
      ensures forall b :: 0 <= b < |bucketRow| && b != old(col0Index[2 * rowId]) ==> bucketRow[b] == old(bucketRow[b])
      ensures TakenFrom(old(Cols()), old(col0Index), rowId, Cols(), col0Index, m)
    {
      var sum0 := col0Sum;
      var cs, ci, all, col2, key;
      cs, ci, all, col2, key, m := TakeSlot(maskP1, index, numBuckets, totalCols - 4, numRows, capacity, Cols(),
                                            col0Index, bucketSumAll, bucketSumCol2, rows, col0Sum, rowId);
      Install(cs, ci, sum0 - key, all, col2, rows - {rowId});
    }

    /** The sending side of a migration (`field & mask != index`): the row's
        overflow columns, col1, col2 cut to a short and col3 go into the
        message for the new owner, and the row is deleted by swap here. The
        receiver decodes exactly the fields the row held. */
    method SendRow(rowId: nat) returns (message: seq<Byte>)
      requires Valid() && rowId in rows && |rows[rowId]| > 3 && IsInt32(rows[rowId][3])
      modifies this
      ensures Valid()
      ensures rows == old(rows) - {rowId}
      ensures |old(rows)[rowId]| == totalCols && IsShort(old(rows)[rowId][1]) && AllShorts(old(rows)[rowId][4..])
      ensures |message| == 2 * totalCols && message == Encode(Outgoing(old(rows)[rowId]))
      ensures Decode(message, totalCols - 4) == Outgoing(old(rows)[rowId])
    {
      ghost var row := rows[rowId];
      var m := RemoveRow(rowId);
      assert row == [row[0], m.col1, m.col2, m.col3] + m.rest;
      assert Outgoing(row) == m;
      message := Encode(m);
      DecodeEncode(m);
    }

    /** A put of non-key field `colId` of an owned row (`colId` 1, 2, 3 and the
        overflow columns): the cell takes the new value, the key sum stays. */
    method PutField(rowId: nat, colId: int, field: int)
      requires Valid() && rowId in rows && 1 <= colId < totalCols && (colId == 3 || IsShort(field))
      modifies this
      ensures Valid()
      ensures colId < |old(rows)[rowId]| && rows == old(rows)[rowId := old(rows)[rowId][colId := field]]
    {
      var sum0, ci := col0Sum, col0Index;
      ghost var rows0 := rows;
      var cs, all, col2 := WriteCell(maskP1, index, numBuckets, totalCols - 4, numRows, capacity, Cols(), ci,
                                     bucketSumAll, bucketSumCol2, rows0, rowId, colId, field);
      CellKeySum(rows0, numRows, rowId, colId, field);
      Install(cs, ci, sum0, all, col2, rows0[rowId := rows0[rowId][colId := field]]);
    }

    /** The receiving side of a migration (`field & mask == index` for a row
        not owned here): the row read off the queue is appended to the bucket
        of its new key, indexed there, and counted in the key sum and in both
        aggregates of that bucket; the message's shorts are added up as sent. */
    method ReceiveRow(rowId: nat, field: int, message: seq<Byte>)
      requires Valid() && rowId < numRows && rowId !in rows
      requires 0 <= field < MAX_FIELD && field % maskP1 == index && HasRoom(field / maskP1)
      requires |message| == 2 * totalCols
      modifies this
      ensures Valid()
      ensures rows == old(rows)[rowId := Arrived(field, Decode(message, totalCols - 4))]
    {
      var row := Decode(message, totalCols - 4);
      var slots := SlotSum(message, totalCols - 2);
      SlotsOfDecode(message, totalCols - 4);
      AppendRow(rowId, field, row, slots);
    }

    /** A key change within the partition (`field & mask == index`): the row
        leaves its slot, deleted by swap, and is appended to the bucket of its
        new key; both aggregates and the key sum follow. The source appends
        before it deletes; by `AppendDeleteCommute` the columns and the index
        end up as that order leaves them. */
    method MoveRow(rowId: nat, field: int)
      requires Valid() && rowId in rows
      requires 0 <= field < MAX_FIELD && field % maskP1 == index && |rows[rowId]| > 0 && field != rows[rowId][0]
      requires HasRoom(field / maskP1)
      modifies this
      ensures Valid()
      ensures rows == old(rows)[rowId := old(rows)[rowId][0 := field]]
      ensures AppendedThenDeleted(old(Cols()), old(col0Index), rowId, field / maskP1, Cols(), col0Index)
    {
      KeyOfField(field);
      RowFacts(rowId);
      ghost var rows0, cs0, ci0 := rows, Cols(), col0Index;
      SlotOf(maskP1, index, numBuckets, totalCols - 4, numRows, capacity, cs0, ci0, bucketSumAll, bucketSumCol2, rows0, rowId);
      var m := RemoveRow(rowId);
      ghost var cs2, ci2 := Cols(), col0Index;
      var restSum := SumShorts(m.rest);
      AppendRow(rowId, field, m, restSum + m.col1 + m.col2);
      RekeyedRow(rows0, rowId, rows0[rowId], field);
      TakeThenPush(cs0, ci0, rowId, field / maskP1, m, cs2, ci2, Cols(), col0Index);
    }

    /** `workerPutIntField`: a put as one partition sees it. A row owned
        elsewhere is taken in when the new key is ours (`field & mask ==
        index`) and otherwise ignored. For an owned row: the overflow columns
        and col1 .. col3 are overwritten in place; a new key that is the
        current one changes nothing, one of this partition moves the row to
        the bucket of the new key, and any other sends the row away in the
        returned message; a negative column is rejected. `incoming` is what
        the queue yields to a receiving partition. */
    method PutIntField(rowId: nat, colId: int, field: int, incoming: seq<Byte>) returns (outcome: PutOutcome)
      requires Valid() && rowId < numRows && colId < totalCols
      requires colId == 0 ==> 0 <= field < MAX_FIELD
      requires rowId in rows && colId != 0 && colId != 3 ==> IsShort(field)
      requires rowId in rows && colId == 0 ==> |rows[rowId]| > 3 && IsInt32(rows[rowId][3])
      requires rowId !in rows && colId == 0 && field % maskP1 == index ==>
                 |incoming| == 2 * totalCols && HasRoom(field / maskP1)
      requires rowId in rows && colId == 0 && field % maskP1 == index ==> HasRoom(field / maskP1)
      modifies this
      ensures Valid()
      ensures rows == AfterPut(old(rows), maskP1, index, rowId, colId, field, Received(incoming, totalCols - 4))
      ensures outcome == BadColumn <==> rowId in old(rows) && colId < 0
      ensures outcome.Sent? <==> rowId in old(rows) && colId == 0 && field % maskP1 != index
      ensures outcome.Sent? ==> && rowId in old(rows) && |old(rows)[rowId]| >= 4 && totalCols >= 4
                                && |outcome.message| == 2 * totalCols
                                && Decode(outcome.message, totalCols - 4) == Outgoing(old(rows)[rowId])
    {
      var bucket := col0Index[2 * rowId];
      if bucket < 0 {
        if colId == 0 {
          BitAndLowMask(field, maskP1);
          if BitAnd(field, mask) == index {
            ReceiveRow(rowId, field, incoming);
          }
        }
        return Done;
      }
      RowFacts(rowId);
      if colId > 3 || colId == 1 || colId == 2 || colId == 3 {
        PutField(rowId, colId, field);
        return Done;
      }
      if colId < 0 {
        return BadColumn;
      }
      KeyIs(bucket);
      if bucket * maskP1 + index == field {
        return Done;
      }
      BitAndLowMask(field, maskP1);
      if BitAnd(field, mask) == index {
        MoveRow(rowId, field);
        return Done;
      }
      var message := SendRow(rowId);
      return Sent(message);
    }

    /** The last bucket the corrected `workerPredicatedUpdate` scans is the
        last one whose key is below the threshold, and it exists. */
    lemma EndOrder(t: int, end: int)
      requires Config() && 0 <= t
      requires end == ClampedLastBlock(t, maskP1, index, numBuckets)
      ensures -1 <= end < numBuckets
      ensures forall b :: 0 <= b < numBuckets ==> (b <= end <==> Scaled(b, maskP1) + index < t)
    {
      forall b | 0 <= b < numBuckets
        ensures b <= end <==> Scaled(b, maskP1) + index < t
      {
        ClampedLastBlockOrder(t, maskP1, index, numBuckets, b);
      }
    }

    /** The buckets up to `end`, the ones whose key is below `t`, hold
        exactly the rows the update counts. */
    lemma CountUpTo(t: int, end: int)
      requires Stored() && -1 <= end < numBuckets
      requires forall b :: 0 <= b < numBuckets ==> (b <= end <==> Scaled(b, maskP1) + index < t)
      ensures Sizes(buckets3[..end + 1]) == RowTotal(rows, CountBelow(t), numRows)
    {
      var q := CountBelow(t);
      forall b | 0 <= b < numBuckets
        ensures SumOver(rows, q, bucketRow[b]) == if b <= end then |buckets3[b]| else 0
      {
        assert BucketLayout(bucketRow[b], buckets1[b], buckets2[b], buckets3[b], bucketRest[b], capacity[b], totalCols - 4);
        forall o | 0 <= o < |bucketRow[b]|
          ensures Value(rows, q, bucketRow[b][o]) == if b <= end then 1 else 0
        {
          SlotRow(b, o);
        }
        SumOverConst(rows, q, bucketRow[b], if b <= end then 1 else 0);
      }
      SlotTotalUpTo(rows, q, bucketRow, end + 1);
      SlotTotalSizes(rows, q, bucketRow[..end + 1], buckets3[..end + 1]);
      SlotsAreRows(q);
    }

    /** Keys are never negative: a negative threshold selects no row. */
    lemma NothingBelow(t: int)
      requires Stored() && t < 0
      ensures UpdatedRows(rows, t) == rows && RowTotal(rows, CountBelow(t), numRows) == 0
    {
      forall r | r in rows
        ensures |rows[r]| >= 4 && rows[r][0] >= 0
      {
        RowFacts(r);
      }
      assert UpdatedRows(rows, t) == rows;
      RowTotalOfZero(rows, CountBelow(t), numRows);
    }

    /** `workerPredicatedUpdate`: `UPDATE (col3 = col3 + col2) WHERE col0 < t`
        over the buckets whose key is below the threshold, each bucket's
        total of all fields growing by its col2 total; the answer is the
        number of rows updated. The scan stops at the last bucket, where the
        source runs past it for a threshold above `MAX_FIELD + index`. */
    method PredicatedUpdate(threshold: int) returns (count: int)
      requires Valid()
      modifies this
      ensures Valid()
      ensures rows == UpdatedRows(old(rows), threshold)
      ensures count == RowTotal(old(rows), CountBelow(threshold), numRows)
    {
      if threshold < 0 {
        NothingBelow(threshold);
        return 0;
      }
      var sum0, ci, col2 := col0Sum, col0Index, bucketSumCol2;
      var cs0, all0 := Cols(), bucketSumAll;
      ghost var rows0 := rows;
      var thresholdBucket := threshold / maskP1;
      BitAndLowMask(threshold, maskP1);
      var thresholdIndex := BitAnd(threshold, mask);
      var endBucket := if index < thresholdIndex then thresholdBucket else thresholdBucket - 1;
      if endBucket >= numBuckets {
        endBucket := numBuckets - 1;
      }
      EndOrder(threshold, endBucket);
      CountUpTo(threshold, endBucket);
      UpdateKeeps(maskP1, index, numBuckets, totalCols - 4, numRows, capacity, cs0, ci, all0, col2, rows0,
                  threshold, endBucket);
      var c3, all;
      c3, all, count := UpdateBuckets(cs0.c3, cs0.c2, all0, col2, endBucket);
      RowTotalDiffer(rows0, UpdatedRows(rows0, threshold), KeySum, numRows, -1);
      Install(cs0.(c3 := c3), ci, sum0, all, col2, UpdatedRows(rows0, threshold));
    }

    /** `columnSum`: the running key sum is the sum of the owned rows' keys. */
    method ColumnSum() returns (sum: int)
      requires Valid()
      ensures sum == RowTotal(rows, KeySum, numRows)
    {
      sum := col0Sum;
    }

    /** One slot of the `workerPredicatedColumnSum` scan adds what the query
        takes from the row stored there. */
    lemma MatchStep(t1: int, t2: int, b: int, j: int)
      requires Stored() && 0 <= b < numBuckets && 0 <= j < |bucketRow[b]|
      ensures j < |buckets1[b]| && j < |buckets2[b]|
      ensures SumOver(rows, MatchedKeySum(t1, t2), bucketRow[b][..j + 1])
           == SumOver(rows, MatchedKeySum(t1, t2), bucketRow[b][..j])
              + (if buckets1[b][j] > t1 && buckets2[b][j] < t2 then Key(b) else 0)
    {
      SlotRow(b, j);
      SumOverPrefix(rows, MatchedKeySum(t1, t2), bucketRow[b], j);
    }

    /** `workerPredicatedColumnSum`: a scan of every slot of every bucket, adding
        the implied key of each row with `col1 > t1` and `col2 < t2`. */
    method PredicatedColumnSum(t1: int, t2: int) returns (sum: int)
      requires Valid()
      ensures sum == RowTotal(rows, MatchedKeySum(t1, t2), numRows)
    {
      ghost var q := MatchedKeySum(t1, t2);
      sum := 0;
      var bucket := 0;
      while bucket < numBuckets
        invariant 0 <= bucket <= numBuckets
        invariant sum == SlotTotal(rows, q, bucketRow[..bucket])
      {
        var bucketSize := |buckets1[bucket]|;
        assert BucketLayout(bucketRow[bucket], buckets1[bucket], buckets2[bucket], buckets3[bucket],
                            bucketRest[bucket], capacity[bucket], totalCols - 4);
        var j := 0;
        while j < bucketSize
          invariant 0 <= j <= bucketSize
          invariant sum == SlotTotal(rows, q, bucketRow[..bucket]) + SumOver(rows, q, bucketRow[bucket][..j])
        {
          MatchStep(t1, t2, bucket, j);
          if buckets1[bucket][j] > t1 && buckets2[bucket][j] < t2 {
            KeyIs(bucket);
            sum := sum + bucket * maskP1 + index;
          }
          j := j + 1;
        }
        assert bucketRow[bucket][..j] == bucketRow[bucket];
        SlotTotalPrefix(rows, q, bucketRow, bucket);
        bucket := bucket + 1;
      }
      assert bucketRow[..bucket] == bucketRow;
      SlotsAreRows(q);
    }

    /** The source's `bucket * mask_p1 + index` is the key of bucket `bucket`. */
    lemma KeyIs(b: int)
      requires b >= 0
      ensures b * maskP1 + index == Key(b)
    {
      ScaledIsProduct(b, maskP1);
    }

    /** The bucket where `workerPredicatedAllColumnsSum` starts: the first
        bucket whose key exceeds the threshold. */
    function StartBucket(threshold: int): (startBucket: int)
      requires Config()
      reads this
      ensures startBucket >= 0
      ensures forall b :: 0 <= b < numBuckets ==> (b >= startBucket <==> Key(b) > threshold)
    {
      if threshold >= 0 then
        var thresholdBucket := threshold / maskP1;
        var thresholdIndex := BitAnd(threshold, mask);
        BitAndLowMask(threshold, maskP1);
        StartOrder(threshold, if index > thresholdIndex then thresholdBucket else thresholdBucket + 1);
        if index > thresholdIndex then thresholdBucket else thresholdBucket + 1
      else
        StartOrder(threshold, 0);
        0
    }

    lemma StartOrder(t: int, start: int)
      requires Config()
      requires t >= 0 ==> start == (if index > t % maskP1 then t / maskP1 else t / maskP1 + 1)
      requires t < 0 ==> start == 0
      ensures start >= 0
      ensures forall b :: 0 <= b < numBuckets ==> (b >= start <==> Key(b) > t)
    {
      FirstScaledAbove(t, maskP1, index, start, 0);
      forall b | 0 <= b < numBuckets
        ensures b >= start <==> Key(b) > t
      {
        FirstScaledAbove(t, maskP1, index, start, b);
      }
    }

    /** A bucket whose key exceeds `t` holds rows whose fields add up to its cached total. */
    lemma BucketAbove(t: int, b: int)
      requires Stored() && 0 <= b < numBuckets && Key(b) > t
      ensures SumOver(rows, FieldSumAbove(t), bucketRow[b]) == bucketSumAll[b]
    {
      var cs := Cols();
      assert BucketLayout(bucketRow[b], buckets1[b], buckets2[b], buckets3[b], bucketRest[b], capacity[b], totalCols - 4);
      var k := |bucketRow[b]|;
      forall o | 0 <= o < k
        ensures Value(rows, FieldSumAbove(t), cs.ids[b][o]) == Sum(Row(cs, Key(b), b, o))
      {
        SlotRow(b, o);
      }
      BucketRowsTotal(rows, FieldSumAbove(t), cs, b, Key(b), k);
      assert cs.ids[b][..k] == cs.ids[b] && cs.c1[b][..k] == cs.c1[b] && cs.c2[b][..k] == cs.c2[b];
      assert cs.c3[b][..k] == cs.c3[b] && cs.rest[b][..k] == cs.rest[b];
    }

    /** A bucket whose key does not exceed `t` holds no row the query takes. */
    lemma BucketNotAbove(t: int, b: int)
      requires Stored() && 0 <= b < numBuckets && Key(b) <= t
      ensures SumOver(rows, FieldSumAbove(t), bucketRow[b]) == 0
    {
      forall o | 0 <= o < |bucketRow[b]|
        ensures Value(rows, FieldSumAbove(t), bucketRow[b][o]) == 0
      {
        SlotRow(b, o);
      }
      SumOverConst(rows, FieldSumAbove(t), bucketRow[b], 0);
    }

    /** From the first bucket whose key exceeds `t` on, the cached bucket totals
        add up to the query over the rows. */
    lemma AboveTotal(t: int, start: int)
      requires Stored() && start >= 0
      requires forall b :: 0 <= b < numBuckets ==> (b >= start <==> Key(b) > t)
      ensures var lo := if start <= numBuckets then start else numBuckets;
              Sum(bucketSumAll[lo..numBuckets]) == RowTotal(rows, FieldSumAbove(t), numRows)
    {
      var q := FieldSumAbove(t);
      var lo := if start <= numBuckets then start else numBuckets;
      forall b | 0 <= b < lo
        ensures SumOver(rows, q, bucketRow[b]) == 0
      {
        BucketNotAbove(t, b);
      }
      forall b | lo <= b < numBuckets
        ensures SumOver(rows, q, bucketRow[b]) == bucketSumAll[b]
      {
        BucketAbove(t, b);
      }
      SlotTotalSplit(rows, q, bucketRow, bucketSumAll, lo);
      SlotsAreRows(q);
    }

    /** `workerPredicatedAllColumnsSum`: add the cached totals of the buckets
        from the first one whose key exceeds the threshold. */
    method PredicatedAllColumnsSum(threshold: int) returns (sum: int)
      requires Valid()
      ensures sum == RowTotal(rows, FieldSumAbove(threshold), numRows)
    {
      sum := 0;
      var startBucket := StartBucket(threshold);
      ghost var lo := if startBucket <= numBuckets then startBucket else numBuckets;
      var i := startBucket;
      ghost var done := lo;
      while i < numBuckets
        invariant startBucket <= i && lo <= done
        invariant done == if i <= numBuckets then i else numBuckets
        invariant sum == Sum(bucketSumAll[lo..done])
      {
        SumSliceStep(bucketSumAll, lo, i);
        sum := sum + bucketSumAll[i];
        i := i + 1;
        done := i;
      }
      AboveTotal(threshold, startBucket);
    }
  }
}
