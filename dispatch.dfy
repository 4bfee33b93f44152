/** The dispatcher of the custom table, run sequentially: every command goes
    to every worker, and the replies are combined. The workers are seen
    through the rows each one holds (a `Partition.Worker`'s `rows`); worker
    `w` of `p` owns the rows whose key `k` has `k % p == w`. */
module Dispatch {
  import opened Common
  import opened Wire
  import opened Queries
  import opened SlotSums
  import opened Transitions
  import opened Partition

  type Rows = map<int, seq<int>>

  /** The rows of the whole table that worker `w` of `p` owns. */
  function Share(rows: Rows, p: nat, w: int): Rows
    requires p > 0
  {
    map r | r in rows && |rows[r]| > 0 && rows[r][0] % p == w :: rows[r]
  }

  /** The workers' rows are the table's rows, each held by the worker its key names. */
  ghost predicate Split(parts: seq<Rows>, rows: Rows) {
    && |parts| > 0
    && (forall r :: r in rows ==> |rows[r]| > 0)
    && forall w :: 0 <= w < |parts| ==> parts[w] == Share(rows, |parts|, w)
  }

  /** The loaded table as rows by id. */
  function TableRows(table: seq<seq<int>>): (rows: Rows)
    ensures forall r :: r in rows <==> 0 <= r < |table|
  {
    map r | 0 <= r < |table| :: table[r]
  }

  /** Loading the table into `p` workers, worker `w` with index `w`, splits it. */
  lemma LoadSplits(table: seq<seq<int>>, p: nat)
    requires p > 0 && forall r :: 0 <= r < |table| ==> |table[r]| > 0
    ensures Split(seq(p, w => Owned(table, p, w, |table|)), TableRows(table))
  {
    var parts := seq(p, w => Owned(table, p, w, |table|));
    var rows := TableRows(table);
    forall w | 0 <= w < p
      ensures parts[w] == Share(rows, p, w)
    {
      assert parts[w] == Owned(table, p, w, |table|);
      forall r | r in parts[w]
        ensures r in Share(rows, p, w) && Share(rows, p, w)[r] == parts[w][r]
      {
        assert rows[r] == table[r];
      }
      forall r | r in Share(rows, p, w)
        ensures r in parts[w]
      {
        assert rows[r] == table[r];
      }
    }
  }

  /** A row of the table is held by exactly the worker its key names. */
  lemma OneOwner(parts: seq<Rows>, rows: Rows, r: int, w: int)
    requires Split(parts, rows) && r in rows && 0 <= w < |parts|
    ensures r in parts[w] <==> rows[r][0] % |parts| == w
    ensures r in parts[w] ==> parts[w][r] == rows[r]
  {
    assert parts[w] == Share(rows, |parts|, w);
  }

  // Sum reductions

  /** The workers' replies to query `q` over row ids `0 .. n-1`, added up. */
  function PartsTotal(parts: seq<Rows>, q: Query, n: nat): int {
    if parts == [] then 0 else PartsTotal(parts[..|parts| - 1], q, n) + RowTotal(parts[|parts| - 1], q, n)
  }

  /** What query `q` takes from row id `r` in every worker, added up. */
  function PartsValue(parts: seq<Rows>, q: Query, r: int): int {
    if parts == [] then 0 else PartsValue(parts[..|parts| - 1], q, r) + Value(parts[|parts| - 1], q, r)
  }

  /** One more row id adds that id's share in every worker. */
  lemma {:induction false} PartsTotalStep(parts: seq<Rows>, q: Query, n: nat)
    requires n > 0
    ensures PartsTotal(parts, q, n) == PartsTotal(parts, q, n - 1) + PartsValue(parts, q, n - 1)
    decreases |parts|
  {
    if parts != [] {
      PartsTotalStep(parts[..|parts| - 1], q, n);
    }
  }

  /** Among the first `k` workers, only the owner of `r` contributes to it. */
  lemma {:induction false} PartsValueOwner(parts: seq<Rows>, rows: Rows, q: Query, r: int, k: nat)
    requires Split(parts, rows) && k <= |parts|
    ensures PartsValue(parts[..k], q, r)
            == if r in rows && rows[r][0] % |parts| < k then Value(rows, q, r) else 0
  {
    if k > 0 {
      assert parts[..k][..k - 1] == parts[..k - 1];
      PartsValueOwner(parts, rows, q, r, k - 1);
      if r in rows {
        OneOwner(parts, rows, r, k - 1);
      } else {
        assert parts[k - 1] == Share(rows, |parts|, k - 1);
      }
    }
  }

  /** The workers' replies add up to the answer over the whole table. */
  lemma {:induction false} PartsTotalIsRowTotal(parts: seq<Rows>, rows: Rows, q: Query, n: nat)
    requires Split(parts, rows)
    ensures PartsTotal(parts, q, n) == RowTotal(rows, q, n)
  {
    if n == 0 {
      PartsTotalOfZero(parts, q);
    } else {
      PartsTotalIsRowTotal(parts, rows, q, n - 1);
      PartsTotalStep(parts, q, n);
      PartsValueOwner(parts, rows, q, n - 1, |parts|);
      assert parts[..|parts|] == parts;
    }
  }

  /** Over no row ids every reply is 0. */
  lemma {:induction false} PartsTotalOfZero(parts: seq<Rows>, q: Query)
    ensures PartsTotal(parts, q, 0) == 0
    decreases |parts|
  {
    if parts != [] {
      PartsTotalOfZero(parts[..|parts| - 1], q);
    }
  }

  /** The dispatcher side of `columnSum`, `predicatedColumnSum`,
      `predicatedAllColumnsSum` and `predicatedUpdate`: one reply per worker,
      each the worker's answer over the rows it holds, added up. */
  method SumReplies(replies: seq<int>, ghost parts: seq<Rows>, ghost rows: Rows, ghost q: Query, ghost n: nat)
    returns (sum: int)
    requires Split(parts, rows) && |replies| == |parts|
    requires forall w :: 0 <= w < |parts| ==> replies[w] == RowTotal(parts[w], q, n)
    ensures sum == RowTotal(rows, q, n)
  {
    sum := 0;
    var i := 0;
    while i < |replies|
      invariant 0 <= i <= |replies|
      invariant sum == PartsTotal(parts[..i], q, n)
    {
      assert parts[..i + 1][..i] == parts[..i];
      sum := sum + replies[i];
      i := i + 1;
    }
    assert parts[..|replies|] == parts;
    PartsTotalIsRowTotal(parts, rows, q, n);
  }

  /** The update query run by every worker keeps the table split, and the
      table then is the update applied to the whole of it. */
  lemma UpdateSplits(parts: seq<Rows>, rows: Rows, t: int)
    requires Split(parts, rows)
    ensures Split(seq(|parts|, w requires 0 <= w < |parts| => UpdatedRows(parts[w], t)), UpdatedRows(rows, t))
  {
    var parts' := seq(|parts|, w requires 0 <= w < |parts| => UpdatedRows(parts[w], t));
    var rows' := UpdatedRows(rows, t);
    forall w | 0 <= w < |parts|
      ensures parts'[w] == Share(rows', |parts|, w)
    {
      assert parts[w] == Share(rows, |parts|, w);
      forall r | r in rows'
        ensures rows'[r][0] == rows[r][0] && |rows'[r]| == |rows[r]|
      {
      }
    }
  }

  // getIntField

  /** A worker's reply to `getIntField`: the field of a row it holds, -1 for
      any other row (`workerGetIntField`). */
  function Reply(part: Rows, r: int, c: int): int {
    if r in part && 0 <= c < |part[r]| then part[r][c] else -1
  }

  /** The replies that reach the result queue as the command loop is
      written: a reply below 0 is taken for "not my row" and dropped. */
  function RepliesAsWritten(parts: seq<Rows>, r: int, c: int): seq<int> {
    if parts == [] then []
    else
      var v := Reply(parts[|parts| - 1], r, c);
      RepliesAsWritten(parts[..|parts| - 1], r, c) + (if v < 0 then [] else [v])
  }

  /** The replies that reach the result queue when only the workers that hold
      the row answer. */
  function Replies(parts: seq<Rows>, r: int, c: int): seq<int> {
    if parts == [] then []
    else
      var part := parts[|parts| - 1];
      Replies(parts[..|parts| - 1], r, c) + (if r in part then [Reply(part, r, c)] else [])
  }

  /** The dispatcher's `getIntField`: the first reply, or `None` when none
      arrives (the dispatcher then gives up after a timeout). */
  function GetIntField(parts: seq<Rows>, r: int, c: int): Option<int> {
    var rs := Replies(parts, r, c);
    if rs == [] then None else Some(rs[0])
  }

  /** Among the first `k` workers, only the owner of `r` answers. */
  lemma {:induction false} RepliesOwner(parts: seq<Rows>, rows: Rows, r: int, c: int, k: nat)
    requires Split(parts, rows) && k <= |parts| && r in rows && 0 <= c < |rows[r]|
    ensures Replies(parts[..k], r, c) == if rows[r][0] % |parts| < k then [rows[r][c]] else []
    ensures RepliesAsWritten(parts[..k], r, c)
            == if rows[r][0] % |parts| < k && rows[r][c] >= 0 then [rows[r][c]] else []
  {
    if k > 0 {
      assert parts[..k][..k - 1] == parts[..k - 1];
      RepliesOwner(parts, rows, r, c, k - 1);
      OneOwner(parts, rows, r, k - 1);
    }
  }

  /** Every field of the table is answered with its value. */
  lemma GetIntFieldOfOwner(parts: seq<Rows>, rows: Rows, r: int, c: int)
    requires Split(parts, rows) && r in rows && 0 <= c < |rows[r]|
    ensures GetIntField(parts, r, c) == Some(rows[r][c])
    ensures RepliesAsWritten(parts, r, c) == if rows[r][c] >= 0 then [rows[r][c]] else []
  {
    RepliesOwner(parts, rows, r, c, |parts|);
    assert parts[..|parts|] == parts;
  }

  /** One worker holding row 0 with col1 == -3: as written, no reply to
      `getIntField(0, 1)` reaches the dispatcher, which waits in vain; the
      value should be answered. */
  lemma NegativeFieldUnanswered()
    ensures var parts := [map[0 := [0, -3, 0, 0]]];
            && Split(parts, map[0 := [0, -3, 0, 0]])
            && RepliesAsWritten(parts, 0, 1) == []
            && GetIntField(parts, 0, 1) == Some(-3)
  {
    var rows := map[0 := [0, -3, 0, 0]];
    var parts := [rows];
    assert parts[0] == Share(rows, 1, 0);
    assert parts[..0] == [];
  }

  // putIntField

  /** The row the owner of `r` sends when `r` moves to another worker, as
      the receiver decodes it; no fields when no worker holds `r` or the row
      cannot be sent. */
  function Carried(parts: seq<Rows>, r: int): MovedRow {
    if parts == [] then MovedRow([], 0, 0, 0)
    else
      var part := parts[|parts| - 1];
      if r in part then
        var row := part[r];
        if |row| >= 4 && IsShort(row[1]) && AllShorts(row[4..]) && IsInt32(row[3])
        then Received(Encode(Outgoing(row)), |row| - 4)
        else MovedRow([], 0, 0, 0)
      else Carried(parts[..|parts| - 1], r)
  }

  /** The dispatcher's `putIntField` followed by every worker's
      `workerPutIntField`: the value is cut to 16 bits, every worker gets the
      command, and the receiver of a moved row reads what its owner sent. */
  function Put(parts: seq<Rows>, r: int, c: int, field: int): (parts': seq<Rows>)
    requires |parts| > 0
    ensures |parts'| == |parts|
  {
    var v := ToShort(field);
    var arrived := Carried(parts, r);
    seq(|parts|, w requires 0 <= w < |parts| => AfterPut(parts[w], |parts|, w, r, c, v, arrived))
  }

  /** Among the first `k` workers, the owner's message is the owner's row. */
  lemma {:induction false} CarriedOwner(parts: seq<Rows>, rows: Rows, r: int, k: nat)
    requires Split(parts, rows) && k <= |parts| && r in rows && rows[r][0] % |parts| < k
    requires |rows[r]| >= 4 && IsShort(rows[r][1]) && AllShorts(rows[r][4..]) && IsInt32(rows[r][3])
    ensures Carried(parts[..k], r) == Received(Encode(Outgoing(rows[r])), |rows[r]| - 4)
  {
    assert parts[..k][..k - 1] == parts[..k - 1];
    OneOwner(parts, rows, r, k - 1);
    if rows[r][0] % |parts| < k - 1 {
      CarriedOwner(parts, rows, r, k - 1);
    }
  }

  /** A moved row arrives with its new key and every other field intact. */
  lemma CarriedRow(parts: seq<Rows>, rows: Rows, r: int, v: int)
    requires Split(parts, rows) && r in rows
    requires |rows[r]| >= 4 && IsShort(rows[r][1]) && IsShort(rows[r][2]) && AllShorts(rows[r][4..])
    requires IsInt32(rows[r][3])
    ensures Arrived(v, Carried(parts, r)) == rows[r][0 := v]
  {
    CarriedOwner(parts, rows, r, |parts|);
    assert parts[..|parts|] == parts;
    Migrate(rows[r], v);
  }

  /** A put by the dispatcher leaves the table split, and the table then is
      the reference table with the one cell changed to the value cut to 16
      bits, key changes and moves between workers included. */
  lemma PutSplits(parts: seq<Rows>, rows: Rows, r: int, c: int, field: int)
    requires Split(parts, rows) && r in rows && 0 <= c < |rows[r]|
    requires c == 0 ==> 0 <= ToShort(field) < MAX_FIELD
    requires c == 0 ==> |rows[r]| >= 4 && IsShort(rows[r][1]) && IsShort(rows[r][2]) && AllShorts(rows[r][4..])
                        && IsInt32(rows[r][3])
    ensures Split(Put(parts, r, c, field), rows[r := rows[r][c := ToShort(field)]])
  {
    var p := |parts|;
    var v := ToShort(field);
    var parts' := Put(parts, r, c, field);
    var rows' := rows[r := rows[r][c := v]];
    if c == 0 {
      CarriedRow(parts, rows, r, v);
    }
    forall w | 0 <= w < p
      ensures parts'[w] == Share(rows', p, w)
    {
      OneOwner(parts, rows, r, w);
      PutShare(parts, rows, r, c, v, w);
    }
  }

  /** One worker's part of `PutSplits`. */
  lemma PutShare(parts: seq<Rows>, rows: Rows, r: int, c: int, v: int, w: int)
    requires Split(parts, rows) && r in rows && 0 <= c < |rows[r]| && 0 <= w < |parts|
    requires c == 0 ==> v >= 0 && |rows[r]| >= 4 && Arrived(v, Carried(parts, r)) == rows[r][0 := v]
    ensures AfterPut(parts[w], |parts|, w, r, c, v, Carried(parts, r)) == Share(rows[r := rows[r][c := v]], |parts|, w)
  {
    var p := |parts|;
    var rows' := rows[r := rows[r][c := v]];
    OneOwner(parts, rows, r, w);
    assert parts[w] == Share(rows, p, w);
    var got := AfterPut(parts[w], p, w, r, c, v, Carried(parts, r));
    if c == 0 && v == rows[r][0] {
      assert rows[r][c := v] == rows[r];
      assert rows' == rows;
    } else if r in parts[w] {
      if c > 0 {
        assert got == parts[w][r := rows[r][c := v]];
      } else if v % p == w {
        assert got == parts[w][r := rows[r][0 := v]];
      } else {
        assert got == parts[w] - {r};
      }
    } else if c == 0 && v % p == w {
      assert got == parts[w][r := rows[r][0 := v]];
    } else {
      assert got == parts[w];
    }
  }
}
