/** Filtered reads ordered by a timestamp column, newest first (`ORDER BY ... DESC`). */
module Query {
  import opened Models

  ghost predicate NoDuplicates<X>(s: seq<X>)
  {
    forall i, j :: 0 <= i < j < |s| ==> s[i] != s[j]
  }

  /** `ids` lists rows of `table`, ordered by `key`, largest first. */
  ghost predicate SortedByKey<T>(table: map<Id, T>, key: T -> int, ids: seq<Id>)
  {
    && (forall i :: 0 <= i < |ids| ==> ids[i] in table)
    && (forall i, j :: 0 <= i < j < |ids| ==> key(table[ids[i]]) >= key(table[ids[j]]))
  }

  /** Insert row `k` after every row whose key is at least its own. */
  method InsertByKey<T>(table: map<Id, T>, key: T -> int, ids: seq<Id>, k: Id) returns (ids': seq<Id>)
    requires SortedByKey(table, key, ids) && k in table
    ensures SortedByKey(table, key, ids')
    ensures forall x :: x in ids' <==> x in ids || x == k
    ensures NoDuplicates(ids) && k !in ids ==> NoDuplicates(ids')
  {
    var rank := key(table[k]);
    var p := 0;
    while p < |ids| && key(table[ids[p]]) >= rank
      invariant 0 <= p <= |ids|
      invariant forall i :: 0 <= i < p ==> key(table[ids[i]]) >= rank
    {
      p := p + 1;
    }
    ids' := ids[..p] + [k] + ids[p..];
    SpliceKeepsOrder(table, key, ids, p, k);
  }

  /** Splicing `k` in at position `p`, between the rows ranked at least as high and the rows ranked lower. */
  lemma SpliceKeepsOrder<T>(table: map<Id, T>, key: T -> int, ids: seq<Id>, p: nat, k: Id)
    requires SortedByKey(table, key, ids) && k in table && p <= |ids|
    requires forall i :: 0 <= i < p ==> key(table[ids[i]]) >= key(table[k])
    requires p < |ids| ==> key(table[ids[p]]) < key(table[k])
    ensures SortedByKey(table, key, ids[..p] + [k] + ids[p..])
    ensures forall x :: x in ids[..p] + [k] + ids[p..] <==> x in ids || x == k
    ensures NoDuplicates(ids) && k !in ids ==> NoDuplicates(ids[..p] + [k] + ids[p..])
  {
    var r := ids[..p] + [k] + ids[p..];
    SpliceIndex(ids, p, k);
    forall i, j | 0 <= i < j < |r|
      ensures key(table[r[i]]) >= key(table[r[j]])
    {
      if j > p {
        assert r[j] == ids[j - 1];
        if i > p {
          assert r[i] == ids[i - 1];
        } else if i < p {
          assert r[i] == ids[i];
        } else {
          assert key(table[ids[p]]) >= key(table[ids[j - 1]]) || j - 1 == p;
        }
      }
    }
    assert ids == ids[..p] + ids[p..];
    if NoDuplicates(ids) && k !in ids {
      forall i, j | 0 <= i < j < |r|
        ensures r[i] != r[j]
      {
        if j > p && i != p {
          assert r[j] == ids[j - 1];
        }
      }
    }
  }

  /** Where each element of a splice comes from. */
  lemma SpliceIndex(ids: seq<Id>, p: nat, k: Id)
    requires p <= |ids|
    ensures |ids[..p] + [k] + ids[p..]| == |ids| + 1
    ensures forall i :: 0 <= i < p ==> (ids[..p] + [k] + ids[p..])[i] == ids[i]
    ensures (ids[..p] + [k] + ids[p..])[p] == k
    ensures forall i :: p < i <= |ids| ==> (ids[..p] + [k] + ids[p..])[i] == ids[i - 1]
  {
  }

  /** The ids of the rows of `table` that satisfy `keep`, ordered by `key`, largest first. Rows with equal keys come in any order. */
  method SelectDesc<T>(table: map<Id, T>, keep: T -> bool, key: T -> int) returns (ids: seq<Id>)
    ensures forall k :: k in ids <==> k in table && keep(table[k])
    ensures NoDuplicates(ids)
    ensures forall i, j :: 0 <= i < j < |ids| ==> key(table[ids[i]]) >= key(table[ids[j]])
  {
    var rest := table.Keys;
    ids := [];
    while rest != {}
      invariant rest <= table.Keys
      invariant forall k :: k in ids <==> k in table && k !in rest && keep(table[k])
      invariant NoDuplicates(ids)
      invariant SortedByKey(table, key, ids)
      decreases rest
    {
      var k :| k in rest;
      rest := rest - {k};
      if keep(table[k]) {
        ids := InsertByKey(table, key, ids, k);
      }
    }
  }
}
