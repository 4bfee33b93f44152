/** The partition index of one worker (`col0_index` with its reverse mapping
    `bucket_row`), as values: `ids[b]` is the live prefix of bucket `b`'s
    row-id column and `ci` is the flat buffer holding, for row `r`, its bucket
    at `ci[2r]` and its offset at `ci[2r + 1]`, or -1 twice when the row is not
    owned here. */
module BucketIndex {
  import opened Common

  /** The entry of row `r` is absent, or names a slot that holds `r`. */
  predicate EntryOk(ids: seq<seq<int>>, ci: seq<int>, r: nat)
    requires 2 * r + 1 < |ci|
  {
    || (ci[2 * r] == -1 && ci[2 * r + 1] == -1)
    || (0 <= ci[2 * r] < |ids| && 0 <= ci[2 * r + 1] < |ids[ci[2 * r]]| && ids[ci[2 * r]][ci[2 * r + 1]] == r)
  }

  /** The row held in slot `(b, o)` has an entry naming that slot. */
  predicate PointsBack(ids: seq<seq<int>>, ci: seq<int>, b: nat, o: nat)
    requires b < |ids| && o < |ids[b]|
  {
    0 <= ids[b][o] && 2 * ids[b][o] + 1 < |ci| && ci[2 * ids[b][o]] == b && ci[2 * ids[b][o] + 1] == o
  }

  /** The index and the bucket row-id columns are mutual inverses over rows `0 .. n-1`. */
  predicate Indexed(ids: seq<seq<int>>, ci: seq<int>, n: nat) {
    && |ci| == 2 * n
    && (forall r: nat :: r < n ==> EntryOk(ids, ci, r))
    && (forall b: nat, o: nat :: b < |ids| && o < |ids[b]| ==> PointsBack(ids, ci, b, o))
  }

  /** The index update of a delete-by-swap at slot `(b, o)`: the row moved from
      the last slot into `o` gets its offset rewritten. */
  function Relink(ci: seq<int>, ids: seq<seq<int>>, b: nat, o: nat): seq<int>
    requires b < |ids| && o < |ids[b]|
    requires 0 <= ids[b][|ids[b]| - 1] && 2 * ids[b][|ids[b]| - 1] + 1 < |ci|
  {
    var last := |ids[b]| - 1;
    var moved := ids[b][last];
    if o == last then ci else ci[2 * moved := b][2 * moved + 1 := o]
  }

  lemma SlotsAreDistinct(ids: seq<seq<int>>, ci: seq<int>, n: nat, b: nat, o: nat, b': nat, o': nat)
    requires Indexed(ids, ci, n)
    requires b < |ids| && o < |ids[b]| && b' < |ids| && o' < |ids[b']|
    requires (b, o) != (b', o')
    ensures ids[b][o] != ids[b'][o']
  {
    assert PointsBack(ids, ci, b, o) && PointsBack(ids, ci, b', o');
  }

  /** Appending a row that has no entry to bucket `b` and pointing its entry at
      the new last slot keeps the two mutual inverses. */
  lemma IndexAppend(ids: seq<seq<int>>, ci: seq<int>, n: nat, b: nat, r: nat)
    requires Indexed(ids, ci, n) && b < |ids| && r < n && ci[2 * r] == -1
    ensures Indexed(ids[b := ids[b] + [r]], ci[2 * r := b][2 * r + 1 := |ids[b]|], n)
  {
    var ids', ci' := ids[b := ids[b] + [r]], ci[2 * r := b][2 * r + 1 := |ids[b]|];
    forall r': nat | r' < n
      ensures EntryOk(ids', ci', r')
    {
      assert EntryOk(ids, ci, r');
    }
    forall b': nat, o': nat | b' < |ids'| && o' < |ids'[b']|
      ensures PointsBack(ids', ci', b', o')
    {
      if b' == b && o' == |ids[b]| {
      } else {
        assert PointsBack(ids, ci, b', o');
        assert ids[b'][o'] != r;
      }
    }
  }

  /** Deleting slot `(b, o)` by swap and marking its row absent keeps the two
      mutual inverses; every other row keeps its entry, except the moved one. */
  lemma IndexRemove(ids: seq<seq<int>>, ci: seq<int>, n: nat, b: nat, o: nat)
    requires Indexed(ids, ci, n) && b < |ids| && o < |ids[b]|
    ensures PointsBack(ids, ci, b, |ids[b]| - 1) && PointsBack(ids, ci, b, o)
    ensures var r := ids[b][o];
            Indexed(ids[b := DeleteSwap(ids[b], o)], Relink(ci[2 * r := -1][2 * r + 1 := -1], ids, b, o), n)
  {
    assert PointsBack(ids, ci, b, |ids[b]| - 1) && PointsBack(ids, ci, b, o);
    RemoveEntries(ids, ci, n, b, o);
    RemoveSlots(ids, ci, n, b, o);
  }

  /** After a delete by swap every entry is still absent or names its slot. */
  lemma RemoveEntries(ids: seq<seq<int>>, ci: seq<int>, n: nat, b: nat, o: nat)
    requires Indexed(ids, ci, n) && b < |ids| && o < |ids[b]|
    requires PointsBack(ids, ci, b, |ids[b]| - 1) && PointsBack(ids, ci, b, o)
    ensures var r := ids[b][o];
            var ids', ci' := ids[b := DeleteSwap(ids[b], o)], Relink(ci[2 * r := -1][2 * r + 1 := -1], ids, b, o);
            |ci'| == 2 * n && forall r': nat :: r' < n ==> EntryOk(ids', ci', r')
  {
    var last := |ids[b]| - 1;
    var r, moved := ids[b][o], ids[b][last];
    var ids' := ids[b := DeleteSwap(ids[b], o)];
    var ci' := Relink(ci[2 * r := -1][2 * r + 1 := -1], ids, b, o);
    if o != last {
      SlotsAreDistinct(ids, ci, n, b, o, b, last);
    }
    assert ci'[2 * r] == -1 && ci'[2 * r + 1] == -1;
    forall r': nat | r' < n
      ensures EntryOk(ids', ci', r')
    {
      assert EntryOk(ids, ci, r');
      if r' != r && !(o != last && r' == moved) && ci[2 * r'] != -1 {
        var b', o' := ci[2 * r'], ci[2 * r' + 1];
        assert b' == b ==> o' != o && o' != last;
      }
    }
  }

  /** After a delete by swap every slot still holds a row whose entry names it. */
  lemma RemoveSlots(ids: seq<seq<int>>, ci: seq<int>, n: nat, b: nat, o: nat)
    requires Indexed(ids, ci, n) && b < |ids| && o < |ids[b]|
    requires PointsBack(ids, ci, b, |ids[b]| - 1) && PointsBack(ids, ci, b, o)
    ensures var r := ids[b][o];
            var ids', ci' := ids[b := DeleteSwap(ids[b], o)], Relink(ci[2 * r := -1][2 * r + 1 := -1], ids, b, o);
            forall b': nat, o': nat :: b' < |ids'| && o' < |ids'[b']| ==> PointsBack(ids', ci', b', o')
  {
    var last := |ids[b]| - 1;
    var r := ids[b][o];
    var ids' := ids[b := DeleteSwap(ids[b], o)];
    var ci' := Relink(ci[2 * r := -1][2 * r + 1 := -1], ids, b, o);
    forall b': nat, o': nat | b' < |ids'| && o' < |ids'[b']|
      ensures PointsBack(ids', ci', b', o')
    {
      if b' == b && o' == o {
      } else {
        assert PointsBack(ids, ci, b', o');
        SlotsAreDistinct(ids, ci, n, b', o', b, o);
        if o != last {
          SlotsAreDistinct(ids, ci, n, b', o', b, last);
        }
      }
    }
  }

}
