/** The value side of the indexed row table: the row-major cell layout, the
    secondary index from a column's values to row ids, and the sums its
    queries take over rows picked by id. */
module IndexedRows {
  import opened Common
  import opened Bits
  import opened Queries

  // Row-major layout

  /** Cell `(r, c)` of a grid `w` cells wide sits at offset `r * w + c`. */
  function Offset(r: nat, c: nat, w: nat): nat {
    ScaledIsProduct(r, w);
    Scaled(r, w) + c
  }

  /** A cell of the grid lies inside the buffer, and so does the row that holds it. */
  lemma OffsetInRange(r: nat, c: nat, n: nat, w: nat)
    requires r < n && c < w
    ensures Offset(r, c, w) < Scaled(n, w) && Scaled(r, w) + w <= Scaled(n, w)
  {
    ScaledIsProduct(r, w);
    ScaledIsProduct(n, w);
    KeyOrder(n, 0, r, c, w);
    KeyOrder(n, 0, r + 1, 0, w);
  }

  /** Distinct cells of the grid sit at distinct offsets. */
  lemma OffsetInjective(r: nat, c: nat, r': nat, c': nat, w: nat)
    requires c < w && c' < w && Offset(r, c, w) == Offset(r', c', w)
    ensures r == r' && c == c'
  {
    ScaledIsProduct(r, w);
    ScaledIsProduct(r', w);
    KeyOrder(r, c, r', c', w);
  }

  /** The flat buffer holds the rows, each `w` cells wide, one after another. */
  ghost predicate Mirrors(flat: seq<int>, rows: seq<seq<int>>, w: nat) {
    && |flat| == Scaled(|rows|, w)
    && (forall r :: 0 <= r < |rows| ==> |rows[r]| == w)
    && forall r, c {:trigger Offset(r, c, w)} :: 0 <= r < |rows| && 0 <= c < w ==> Offset(r, c, w) < |flat| && flat[Offset(r, c, w)] == rows[r][c]
  }

  /** Writing one offset changes exactly the one cell it belongs to. */
  lemma WriteMirrors(flat: seq<int>, rows: seq<seq<int>>, w: nat, r: nat, c: nat, v: int)
    requires Mirrors(flat, rows, w) && r < |rows| && c < w
    ensures Offset(r, c, w) < |flat| && Mirrors(flat[Offset(r, c, w) := v], rows[r := rows[r][c := v]], w)
  {
    var o := Offset(r, c, w);
    assert o < |flat| && flat[o] == rows[r][c];
    var flat' := flat[o := v];
    var rows' := rows[r := rows[r][c := v]];
    forall r', c' | 0 <= r' < |rows'| && 0 <= c' < w
      ensures Offset(r', c', w) < |flat'| && flat'[Offset(r', c', w)] == rows'[r'][c']
    {
      assert Offset(r', c', w) < |flat| && flat[Offset(r', c', w)] == rows[r'][c'];
      if Offset(r', c', w) == o {
        OffsetInjective(r', c', r, c, w);
      }
    }
  }

  /** Appending a row's cells to the buffer appends the row. */
  lemma MirrorsExtend(flat: seq<int>, rows: seq<seq<int>>, w: nat, row: seq<int>)
    requires Mirrors(flat, rows, w) && |row| == w
    ensures Mirrors(flat + row, rows + [row], w)
  {
    var n := |rows|;
    forall r, c | 0 <= r < n + 1 && 0 <= c < w
      ensures Offset(r, c, w) < |flat + row| && (flat + row)[Offset(r, c, w)] == (rows + [row])[r][c]
    {
      if r < n {
        assert Offset(r, c, w) < |flat| && flat[Offset(r, c, w)] == rows[r][c];
      }
    }
  }

  /** Once the next row's cells follow the rows already in the buffer, the
      buffer prefix one row longer holds one row more. */
  lemma LoadStep(flat: seq<int>, table: seq<seq<int>>, k: nat, w: nat)
    requires k < |table| && |table[k]| == w && 0 <= Scaled(k, w) && Scaled(k, w) + w <= |flat|
    requires Mirrors(flat[..Scaled(k, w)], table[..k], w)
    requires flat[Scaled(k, w)..Scaled(k, w) + w] == table[k]
    ensures Scaled(k + 1, w) <= |flat| && Mirrors(flat[..Scaled(k + 1, w)], table[..k + 1], w)
  {
    var b := Scaled(k, w);
    assert flat[..b + w] == flat[..b] + table[k];
    MirrorsExtend(flat[..b], table[..k], w, table[k]);
    assert table[..k] + [table[k]] == table[..k + 1];
  }

  // Columns and the secondary index

  /** The values of column `col`, row by row. */
  function Column(rows: seq<seq<int>>, col: nat): (vals: seq<int>)
    requires forall r :: 0 <= r < |rows| ==> col < |rows[r]|
    ensures |vals| == |rows| && forall r :: 0 <= r < |rows| ==> vals[r] == rows[r][col]
  {
    seq(|rows|, r requires 0 <= r < |rows| => rows[r][col])
  }

  /** Changing one cell changes the column it lies in at that row, and no other column. */
  lemma ColumnWrite(rows: seq<seq<int>>, col: nat, r: nat, c: nat, v: int)
    requires forall i :: 0 <= i < |rows| ==> col < |rows[i]| && c < |rows[i]|
    requires r < |rows|
    ensures Column(rows[r := rows[r][c := v]], col)
            == if c == col then Column(rows, col)[r := v] else Column(rows, col)
  {
  }

  predicate Distinct(s: seq<int>) {
    forall i, j :: 0 <= i < j < |s| ==> s[i] != s[j]
  }

  /** `index[v]` lists, each once, exactly the row ids whose value in `vals`
      is `v`, and every row's value has a list (one can be empty). */
  ghost predicate Indexed(vals: seq<int>, index: map<int, seq<int>>) {
    && (forall v :: v in index ==> forall r :: r in index[v] ==> 0 <= r < |vals| && vals[r] == v)
    && (forall v :: v in index ==> Distinct(index[v]))
    && (forall r :: 0 <= r < |vals| ==> vals[r] in index && r in index[vals[r]])
  }

  /** Every list of the index is in ascending order of row id. */
  ghost predicate Ascending(index: map<int, seq<int>>) {
    forall v, i, j :: v in index && 0 <= i < j < |index[v]| ==> index[v][i] < index[v][j]
  }

  /** Adding row `r` under value `v`: its list is created empty when missing,
      then `r` is added at its end. */
  function AddToIndex(index: map<int, seq<int>>, v: int, r: int): (index': map<int, seq<int>>)
    ensures index'.Keys == index.Keys + {v}
  {
    index[v := (if v in index then index[v] else []) + [r]]
  }

  /** The index the loader builds: every row, in order, added under its value. */
  function IndexOf(vals: seq<int>): map<int, seq<int>> {
    if vals == [] then map[] else AddToIndex(IndexOf(vals[..|vals| - 1]), vals[|vals| - 1], |vals| - 1)
  }

  /** Adding the next row under its value keeps the index exact and ascending. */
  lemma AddStep(vals: seq<int>, index: map<int, seq<int>>, v: int)
    requires Indexed(vals, index) && Ascending(index)
    ensures Indexed(vals + [v], AddToIndex(index, v, |vals|)) && Ascending(AddToIndex(index, v, |vals|))
  {
    var n := |vals|;
    var vals' := vals + [v];
    var index' := AddToIndex(index, v, n);
    var before := if v in index then index[v] else [];
    assert index'[v] == before + [n];
    forall i | 0 <= i < |before|
      ensures before[i] < n
    {
      assert v in index && before[i] == index[v][i];
      assert index[v][i] in index[v];
    }
    forall u, r | u in index' && r in index'[u]
      ensures 0 <= r < |vals'| && vals'[r] == u
    {
      if u == v {
        if r != n {
          assert r in before && r in index[v];
        }
      } else {
        assert r in index[u];
      }
    }
    forall u, i, j | u in index' && 0 <= i < j < |index'[u]|
      ensures index'[u][i] < index'[u][j]
    {
      if u != v {
        assert index'[u] == index[u];
      } else if j == |before| {
        assert index'[u][i] == before[i];
      }
    }
    forall u | u in index'
      ensures Distinct(index'[u])
    {
    }
    forall r | 0 <= r < |vals'|
      ensures vals'[r] in index' && r in index'[vals'[r]]
    {
      if r < n {
        assert vals'[r] == vals[r] && r in index[vals[r]];
      }
    }
  }

  /** The loader's index lists, in ascending order and each once, exactly the
      row ids of every value. */
  lemma {:induction false} IndexOfIndexed(vals: seq<int>)
    ensures Indexed(vals, IndexOf(vals)) && Ascending(IndexOf(vals))
  {
    if vals != [] {
      var n := |vals| - 1;
      IndexOfIndexed(vals[..n]);
      AddStep(vals[..n], IndexOf(vals[..n]), vals[n]);
      assert vals[..n] + [vals[n]] == vals;
    }
  }

  /** One more row extends the column prefix by that row's value. */
  lemma ColumnPrefix(rows: seq<seq<int>>, col: nat, k: nat)
    requires k < |rows| && forall r :: 0 <= r < |rows| ==> col < |rows[r]|
    ensures Column(rows[..k + 1], col) == Column(rows[..k], col) + [rows[k][col]]
    ensures IndexOf(Column(rows[..k + 1], col)) == AddToIndex(IndexOf(Column(rows[..k], col)), rows[k][col], k)
  {
    assert Column(rows[..k + 1], col)[..k] == Column(rows[..k], col);
  }

  /** `IntArrayList.rem`: the first occurrence of `x` taken out, if any. */
  function Rem(s: seq<int>, x: int): seq<int> {
    if s == [] then [] else if s[0] == x then s[1..] else [s[0]] + Rem(s[1..], x)
  }

  /** Taking a row id out of a list of distinct ids leaves every other id, once. */
  lemma {:induction false} RemFacts(s: seq<int>, x: int)
    requires Distinct(s)
    ensures Distinct(Rem(s, x)) && forall y :: y in Rem(s, x) <==> y in s && y != x
  {
    if s != [] {
      assert Distinct(s[1..]);
      if s[0] == x {
        assert forall i :: 1 <= i < |s| ==> s[i] != x;
      } else {
        RemFacts(s[1..], x);
        var t := Rem(s[1..], x);
        assert forall i :: 0 <= i < |t| ==> t[i] in t && t[i] in s[1..];
      }
    }
  }

  /** The index after a put of `nv` into row `r`, whose value was `ov`: `r`
      leaves the list of `ov` and is added at the end of the list of `nv`
      (also when `nv == ov`). */
  function Reindex(index: map<int, seq<int>>, ov: int, r: int, nv: int): map<int, seq<int>>
    requires ov in index
  {
    AddToIndex(index[ov := Rem(index[ov], r)], nv, r)
  }

  /** Row `r` taken out of the list of its value: every list then names
      exactly the other rows of its value, each once. */
  lemma RemovedRow(vals: seq<int>, index: map<int, seq<int>>, r: nat, mid: map<int, seq<int>>)
    requires Indexed(vals, index) && r < |vals|
    requires vals[r] in index && mid == index[vals[r] := Rem(index[vals[r]], r)]
    ensures forall u :: u in mid ==> forall x :: x in mid[u] ==> x != r && 0 <= x < |vals| && vals[x] == u
    ensures forall u :: u in mid ==> Distinct(mid[u])
    ensures forall x :: 0 <= x < |vals| && x != r ==> vals[x] in mid && x in mid[vals[x]]
  {
    var ov := vals[r];
    assert Distinct(index[ov]);
    RemFacts(index[ov], r);
  }

  /** Row `r`, in no list, added under value `nv`: every list then names
      exactly the rows of its value once `r` has value `nv`. */
  lemma AddedRow(vals: seq<int>, mid: map<int, seq<int>>, r: nat, nv: int)
    requires r < |vals|
    requires forall u :: u in mid ==> forall x :: x in mid[u] ==> x != r && 0 <= x < |vals| && vals[x] == u
    requires forall u :: u in mid ==> Distinct(mid[u])
    requires forall x :: 0 <= x < |vals| && x != r ==> vals[x] in mid && x in mid[vals[x]]
    ensures Indexed(vals[r := nv], AddToIndex(mid, nv, r))
  {
    var vals' := vals[r := nv];
    var index' := AddToIndex(mid, nv, r);
    var before := if nv in mid then mid[nv] else [];
    assert index'[nv] == before + [r];
    if nv in mid {
      assert forall i :: 0 <= i < |before| ==> before[i] in mid[nv];
    }
    assert forall i :: 0 <= i < |before| ==> before[i] != r;
    forall u, x | u in index' && x in index'[u]
      ensures 0 <= x < |vals'| && vals'[x] == u
    {
      if u == nv {
        if x != r {
          assert x in before && x in mid[nv];
        }
      } else {
        assert x in mid[u];
      }
    }
    forall x | 0 <= x < |vals'|
      ensures vals'[x] in index' && x in index'[vals'[x]]
    {
      if x != r {
        assert x in mid[vals[x]];
      }
    }
  }

  /** A put on the indexed column keeps the index exact. */
  lemma ReindexKeeps(vals: seq<int>, index: map<int, seq<int>>, r: nat, nv: int)
    requires Indexed(vals, index) && r < |vals|
    ensures vals[r] in index && Indexed(vals[r := nv], Reindex(index, vals[r], r, nv))
  {
    var mid := index[vals[r] := Rem(index[vals[r]], r)];
    RemovedRow(vals, index, r, mid);
    AddedRow(vals, mid, r, nv);
  }

  // Sums over rows picked by id

  /** The answer of query `q` over the first `k` rows. */
  function Total(rows: seq<seq<int>>, q: Query, k: nat): int
    requires k <= |rows|
  {
    if k == 0 then 0 else Total(rows, q, k - 1) + Take(q, rows[k - 1])
  }

  /** The answer of query `q` over those of the first `k` rows whose id is in `ids`. */
  function SumWhere(rows: seq<seq<int>>, q: Query, ids: set<int>, k: nat): int
    requires k <= |rows|
  {
    if k == 0 then 0 else SumWhere(rows, q, ids, k - 1) + (if k - 1 in ids then Take(q, rows[k - 1]) else 0)
  }

  /** The answer of query `q` over the rows a list of ids names, in list order. */
  function SumIds(rows: seq<seq<int>>, q: Query, ids: seq<int>): int {
    if ids == [] then 0
    else
      var x := ids[|ids| - 1];
      SumIds(rows, q, ids[..|ids| - 1]) + (if 0 <= x < |rows| then Take(q, rows[x]) else 0)
  }

  /** The ids a list holds. */
  function Elems(ids: seq<int>): set<int> {
    set x | x in ids
  }

  /** The row ids whose value is one of `keys`. */
  function IdsWith(vals: seq<int>, keys: set<int>): set<int> {
    set r | 0 <= r < |vals| && vals[r] in keys
  }

  lemma SumIdsStep(rows: seq<seq<int>>, q: Query, ids: seq<int>, i: nat)
    requires i < |ids|
    ensures SumIds(rows, q, ids[..i + 1])
            == SumIds(rows, q, ids[..i]) + (if 0 <= ids[i] < |rows| then Take(q, rows[ids[i]]) else 0)
  {
    assert ids[..i + 1][..i] == ids[..i];
  }

  /** One more id adds that row's share. */
  lemma {:induction false} SumWhereAdd(rows: seq<seq<int>>, q: Query, ids: set<int>, x: int, k: nat)
    requires k <= |rows| && x !in ids
    ensures SumWhere(rows, q, ids + {x}, k) == SumWhere(rows, q, ids, k) + (if 0 <= x < k then Take(q, rows[x]) else 0)
  {
    if k > 0 {
      SumWhereAdd(rows, q, ids, x, k - 1);
    }
  }

  /** Disjoint sets of ids add up separately. */
  lemma {:induction false} SumWhereUnion(rows: seq<seq<int>>, q: Query, a: set<int>, b: set<int>, k: nat)
    requires k <= |rows| && a !! b
    ensures SumWhere(rows, q, a + b, k) == SumWhere(rows, q, a, k) + SumWhere(rows, q, b, k)
  {
    if k > 0 {
      SumWhereUnion(rows, q, a, b, k - 1);
    }
  }

  /** Leaving out only rows the query takes nothing from leaves the answer. */
  lemma {:induction false} SumWhereFull(rows: seq<seq<int>>, q: Query, ids: set<int>, k: nat)
    requires k <= |rows|
    requires forall r :: 0 <= r < k && r !in ids ==> Take(q, rows[r]) == 0
    ensures SumWhere(rows, q, ids, k) == Total(rows, q, k)
  {
    if k > 0 {
      SumWhereFull(rows, q, ids, k - 1);
    }
  }

  /** A list of distinct row ids adds up to the rows it names, whatever its order. */
  lemma {:induction false} SumIdsIsSumWhere(rows: seq<seq<int>>, q: Query, ids: seq<int>)
    requires Distinct(ids) && forall i :: 0 <= i < |ids| ==> 0 <= ids[i] < |rows|
    ensures SumIds(rows, q, ids) == SumWhere(rows, q, Elems(ids), |rows|)
  {
    if ids == [] {
      assert Elems(ids) == {};
      SumWhereNone(rows, q, |rows|);
    } else {
      var n := |ids| - 1;
      var front := ids[..n];
      assert Distinct(front);
      SumIdsIsSumWhere(rows, q, front);
      assert ids[n] !in front;
      SumWhereAdd(rows, q, Elems(front), ids[n], |rows|);
      assert Elems(front) + {ids[n]} == Elems(ids);
    }
  }

  /** No ids, nothing summed. */
  lemma {:induction false} SumWhereNone(rows: seq<seq<int>>, q: Query, k: nat)
    requires k <= |rows|
    ensures SumWhere(rows, q, {}, k) == 0
  {
    if k > 0 {
      SumWhereNone(rows, q, k - 1);
    }
  }

  /** The list of value `v` names exactly the rows whose value is `v`. */
  lemma ListIsIds(vals: seq<int>, index: map<int, seq<int>>, v: int)
    requires Indexed(vals, index) && v in index
    ensures Elems(index[v]) == IdsWith(vals, {v})
  {
    forall r | r in IdsWith(vals, {v})
      ensures r in index[v]
    {
      assert vals[r] == v;
    }
    forall r | r in Elems(index[v])
      ensures r in IdsWith(vals, {v})
    {
      assert r in index[v];
    }
  }

  /** The rows of one list of the index add up to the rows of its value. */
  lemma ListSum(rows: seq<seq<int>>, q: Query, vals: seq<int>, index: map<int, seq<int>>, v: int)
    requires Indexed(vals, index) && v in index && |vals| == |rows|
    ensures SumIds(rows, q, index[v]) == SumWhere(rows, q, IdsWith(vals, {v}), |rows|)
  {
    assert forall i :: 0 <= i < |index[v]| ==> index[v][i] in index[v];
    assert Distinct(index[v]);
    assert forall i :: 0 <= i < |index[v]| ==> 0 <= index[v][i] < |rows|;
    SumIdsIsSumWhere(rows, q, index[v]);
    ListIsIds(vals, index, v);
  }

  /** Going through the keys of the index one by one: the rows of the keys
      done so far and the rows of the next key add up to the rows of both. */
  lemma KeyStep(rows: seq<seq<int>>, q: Query, vals: seq<int>, index: map<int, seq<int>>, done: set<int>, v: int)
    requires Indexed(vals, index) && v in index && v !in done && |vals| == |rows|
    ensures SumWhere(rows, q, IdsWith(vals, done + {v}), |rows|)
            == SumWhere(rows, q, IdsWith(vals, done), |rows|) + SumIds(rows, q, index[v])
  {
    ListSum(rows, q, vals, index, v);
    assert IdsWith(vals, done + {v}) == IdsWith(vals, done) + IdsWith(vals, {v});
    SumWhereUnion(rows, q, IdsWith(vals, done), IdsWith(vals, {v}), |rows|);
  }

  /** The keys an index range picks name the rows the query takes from. */
  lemma KeysCover(rows: seq<seq<int>>, q: Query, vals: seq<int>, index: map<int, seq<int>>, keys: set<int>)
    requires Indexed(vals, index) && |vals| == |rows|
    requires forall r :: 0 <= r < |rows| && vals[r] !in keys ==> Take(q, rows[r]) == 0
    ensures SumWhere(rows, q, IdsWith(vals, keys), |rows|) == Total(rows, q, |rows|)
  {
    SumWhereFull(rows, q, IdsWith(vals, keys), |rows|);
  }

  /** The list of a key not yet visited holds distinct rows with that value,
      none of them among the rows of the keys visited, and adds to those
      exactly its own rows. */
  lemma KeyRowsFresh(vals: seq<int>, index: map<int, seq<int>>, done: set<int>, v: int)
    requires Indexed(vals, index) && v in index && v !in done
    ensures Distinct(index[v])
    ensures forall r :: r in index[v] ==> 0 <= r < |vals| && vals[r] == v && r !in IdsWith(vals, done)
    ensures IdsWith(vals, done + {v}) == IdsWith(vals, done) + Elems(index[v])
  {
    ListIsIds(vals, index, v);
    assert IdsWith(vals, done + {v}) == IdsWith(vals, done) + IdsWith(vals, {v});
  }

  /** Once every key below `t` is visited, the rows visited are the rows
      whose value is below `t`. */
  lemma KeysBelow(vals: seq<int>, index: map<int, seq<int>>, done: set<int>, t: int)
    requires Indexed(vals, index)
    requires forall v :: v in index && v < t ==> v in done
    requires forall v :: v in done ==> v < t
    ensures forall r :: 0 <= r < |vals| ==> (r in IdsWith(vals, done) <==> vals[r] < t)
  {
    forall r | 0 <= r < |vals|
      ensures r in IdsWith(vals, done) <==> vals[r] < t
    {
      assert vals[r] in index;
    }
  }

  // The update query

  /** `col3 = col3 + col2` on one row. */
  function Bump(row: seq<int>): seq<int>
    requires |row| >= 4
  {
    row[3 := row[3] + row[2]]
  }

  /** One row more counts one more exactly when its col0 is below `t`. */
  lemma CountStep(rows: seq<seq<int>>, t: int, k: nat)
    requires k < |rows| && |rows[k]| > 0
    ensures Total(rows, CountBelow(t), k + 1) == Total(rows, CountBelow(t), k) + if rows[k][0] < t then 1 else 0
  {
  }

  /** `UPDATE (col3 = col3 + col2) WHERE col0 < t` over the whole table. */
  function Updated(rows: seq<seq<int>>, t: int): (rows': seq<seq<int>>)
    ensures |rows'| == |rows|
  {
    seq(|rows|, r requires 0 <= r < |rows| => if |rows[r]| >= 4 && rows[r][0] < t then Bump(rows[r]) else rows[r])
  }

  /** The update applied to the rows before `k` only: a scan that has
      reached row `k`. */
  function UpdatedBefore(rows: seq<seq<int>>, t: int, k: nat): (rows': seq<seq<int>>)
    ensures |rows'| == |rows|
  {
    seq(|rows|, r requires 0 <= r < |rows| => if r < k && |rows[r]| >= 4 && rows[r][0] < t then Bump(rows[r]) else rows[r])
  }

  /** The scan starts from the table, ends at the full update, and each row
      it passes is updated exactly when its col0 is below `t`. */
  lemma UpdatedBeforeStep(rows: seq<seq<int>>, t: int, k: nat)
    requires k < |rows| && |rows[k]| >= 4
    ensures UpdatedBefore(rows, t, 0) == rows && UpdatedBefore(rows, t, |rows|) == Updated(rows, t)
    ensures UpdatedBefore(rows, t, k)[k] == rows[k]
    ensures UpdatedBefore(rows, t, k + 1)
            == if rows[k][0] < t then UpdatedBefore(rows, t, k)[k := Bump(rows[k])] else UpdatedBefore(rows, t, k)
  {
  }

  /** The rows whose ids are in `ids` bumped, the others as they were. */
  function UpdatedIn(rows: seq<seq<int>>, ids: set<int>): (rows': seq<seq<int>>)
    requires forall r :: 0 <= r < |rows| ==> |rows[r]| >= 4
    ensures |rows'| == |rows|
  {
    seq(|rows|, r requires 0 <= r < |rows| => if r in ids then Bump(rows[r]) else rows[r])
  }

  lemma UpdatedInAdd(rows: seq<seq<int>>, ids: set<int>, x: nat)
    requires forall r :: 0 <= r < |rows| ==> |rows[r]| >= 4
    requires x < |rows| && x !in ids
    ensures UpdatedIn(rows, ids + {x}) == UpdatedIn(rows, ids)[x := Bump(rows[x])]
    ensures UpdatedIn(rows, ids)[x] == rows[x]
  {
  }

  /** Bumping exactly the rows below the threshold is the update query. */
  lemma UpdatedInBelow(rows: seq<seq<int>>, t: int, ids: set<int>)
    requires forall r :: 0 <= r < |rows| ==> |rows[r]| >= 4
    requires forall r :: 0 <= r < |rows| ==> (r in ids <==> rows[r][0] < t)
    ensures UpdatedIn(rows, ids) == Updated(rows, t)
  {
  }

  /** Updating the next row of an index list adds that row to the rows
      updated so far, and one to the count. */
  lemma ListStep(rows: seq<seq<int>>, t: int, seen: set<int>, list: seq<int>, i: nat, done: set<int>)
    requires forall r :: 0 <= r < |rows| ==> |rows[r]| >= 4
    requires i < |list| && Distinct(list) && 0 <= list[i] < |rows| && list[i] !in seen && rows[list[i]][0] < t
    requires done == seen + Elems(list[..i])
    ensures list[i] !in done && seen + Elems(list[..i + 1]) == done + {list[i]}
    ensures UpdatedIn(rows, done + {list[i]}) == UpdatedIn(rows, done)[list[i] := Bump(UpdatedIn(rows, done)[list[i]])]
    ensures SumWhere(rows, CountBelow(t), done + {list[i]}, |rows|) == SumWhere(rows, CountBelow(t), done, |rows|) + 1
  {
    var row := list[i];
    assert forall j :: 0 <= j < i ==> list[j] != row;
    assert list[..i + 1] == list[..i] + [row];
    UpdatedInAdd(rows, done, row);
    SumWhereAdd(rows, CountBelow(t), done, row, |rows|);
  }

  /** Once every key below `t` is visited, the rows updated are those of the
      update query and the count is the number of rows below `t`. */
  lemma KeysBelowUpdate(rows: seq<seq<int>>, index: map<int, seq<int>>, done: set<int>, t: int)
    requires forall r :: 0 <= r < |rows| ==> |rows[r]| >= 4
    requires Indexed(Column(rows, 0), index)
    requires forall v :: v in index && v < t ==> v in done
    requires forall v :: v in done ==> v < t
    ensures UpdatedIn(rows, IdsWith(Column(rows, 0), done)) == Updated(rows, t)
    ensures SumWhere(rows, CountBelow(t), IdsWith(Column(rows, 0), done), |rows|) == Total(rows, CountBelow(t), |rows|)
  {
    var vals := Column(rows, 0);
    KeysBelow(vals, index, done, t);
    UpdatedInBelow(rows, t, IdsWith(vals, done));
    SumWhereFull(rows, CountBelow(t), IdsWith(vals, done), |rows|);
  }

  /** The update query touches col3 only. */
  lemma UpdatedColumn(rows: seq<seq<int>>, t: int, col: nat)
    requires forall r :: 0 <= r < |rows| ==> |rows[r]| >= 4 && col < |rows[r]|
    ensures forall r :: 0 <= r < |rows| ==> |Updated(rows, t)[r]| == |rows[r]|
    ensures col != 3 ==> Column(Updated(rows, t), col) == Column(rows, col)
  {
  }

  /** Running the update query twice counts the same rows twice, and adds
      col2 to their col3 twice. */
  lemma {:induction false} UpdateTwice(rows: seq<seq<int>>, t: int, k: nat)
    requires k <= |rows| && forall r :: 0 <= r < |rows| ==> |rows[r]| >= 4
    ensures Total(Updated(rows, t), CountBelow(t), k) == Total(rows, CountBelow(t), k)
    ensures forall r :: 0 <= r < |rows| && rows[r][0] < t ==>
              Updated(Updated(rows, t), t)[r] == rows[r][3 := rows[r][3] + 2 * rows[r][2]]
  {
    if k > 0 {
      UpdateTwice(rows, t, k - 1);
    }
  }
}
