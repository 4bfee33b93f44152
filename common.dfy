/** Value-level helpers shared by both table engines: optional values, the
    Java integer ranges the engines rely on, sums over columns, and the
    delete-by-swap operation used on every bucket column. */
module Common {

  datatype Option<T> = None | Some(value: T)

  /** The range of a Java `short`. */
  predicate IsShort(x: int) {
    -0x8000 <= x < 0x8000
  }

  /** The range of a Java `int`. */
  predicate IsInt32(x: int) {
    -0x8000_0000 <= x < 0x8000_0000
  }

  /** Java's narrowing cast `(short) x`: keep the low 16 bits, read them as signed. */
  function ToShort(x: int): (s: int)
    ensures IsShort(s)
    ensures (x - s) % 0x1_0000 == 0
    ensures IsShort(x) ==> s == x
  {
    (x + 0x8000) % 0x1_0000 - 0x8000
  }

  predicate AllShorts(s: seq<int>) {
    forall i :: 0 <= i < |s| ==> IsShort(s[i])
  }

  /** Sum of a column, accumulated from the front as the source's loops do. */
  function Sum(s: seq<int>): int {
    if s == [] then 0 else Sum(s[..|s| - 1]) + s[|s| - 1]
  }

  /** Sum of every value of a row-major matrix given as a sequence of rows. */
  function NestedSum(m: seq<seq<int>>): int {
    if m == [] then 0 else NestedSum(m[..|m| - 1]) + Sum(m[|m| - 1])
  }

  /** Removal of slot `o` from a dense column by moving the last element into it
      (or, when `o` is the last slot, simply shrinking). */
  function DeleteSwap<T>(s: seq<T>, o: nat): (r: seq<T>)
    requires o < |s|
    ensures |r| == |s| - 1
    ensures o < |r| ==> r[o] == s[|s| - 1]
    ensures forall i :: 0 <= i < |r| && i != o ==> r[i] == s[i]
  {
    if o == |s| - 1 then s[..o] else s[..|s| - 1][o := s[|s| - 1]]
  }

  lemma SumAppend(s: seq<int>, x: int)
    ensures Sum(s + [x]) == Sum(s) + x
  {
    assert (s + [x])[..|s|] == s;
  }

  /** One more element of a slice adds that element. */
  lemma SumSliceStep(s: seq<int>, lo: nat, i: nat)
    requires lo <= i < |s|
    ensures Sum(s[lo..i + 1]) == Sum(s[lo..i]) + s[i]
  {
    assert s[lo..i + 1][..i - lo] == s[lo..i];
  }

  lemma SumConcat(s: seq<int>, t: seq<int>)
    ensures Sum(s + t) == Sum(s) + Sum(t)
    decreases |t|
  {
    if t == [] {
      assert s + t == s;
    } else {
      var t' := t[..|t| - 1];
      assert s + t == (s + t') + [t[|t| - 1]];
      SumAppend(s + t', t[|t| - 1]);
      SumConcat(s, t');
      SumAppend(t', t[|t| - 1]);
      assert t' + [t[|t| - 1]] == t;
    }
  }

  lemma {:induction false} SumUpdate(s: seq<int>, i: nat, x: int)
    requires i < |s|
    ensures Sum(s[i := x]) == Sum(s) - s[i] + x
    decreases |s|
  {
    var n := |s| - 1;
    if i == n {
      assert s[i := x][..n] == s[..n];
    } else {
      assert s[i := x][..n] == s[..n][i := x];
      SumUpdate(s[..n], i, x);
    }
  }

  lemma SumDeleteSwap(s: seq<int>, o: nat)
    requires o < |s|
    ensures Sum(DeleteSwap(s, o)) == Sum(s) - s[o]
  {
    var n := |s| - 1;
    assert Sum(s) == Sum(s[..n]) + s[n];
    if o < n {
      SumUpdate(s[..n], o, s[n]);
      assert s[..n][o] == s[o];
    }
  }

  lemma NestedSumAppend(m: seq<seq<int>>, row: seq<int>)
    ensures NestedSum(m + [row]) == NestedSum(m) + Sum(row)
  {
    assert (m + [row])[..|m|] == m;
  }

  lemma {:induction false} NestedSumUpdate(m: seq<seq<int>>, i: nat, row: seq<int>)
    requires i < |m|
    ensures NestedSum(m[i := row]) == NestedSum(m) - Sum(m[i]) + Sum(row)
    decreases |m|
  {
    var n := |m| - 1;
    if i == n {
      assert m[i := row][..n] == m[..n];
    } else {
      assert m[i := row][..n] == m[..n][i := row];
      NestedSumUpdate(m[..n], i, row);
    }
  }

  lemma NestedSumDeleteSwap(m: seq<seq<int>>, o: nat)
    requires o < |m|
    ensures NestedSum(DeleteSwap(m, o)) == NestedSum(m) - Sum(m[o])
  {
    var n := |m| - 1;
    assert NestedSum(m) == NestedSum(m[..n]) + Sum(m[n]);
    if o < n {
      NestedSumUpdate(m[..n], o, m[n]);
      assert m[..n][o] == m[o];
    }
  }

}
