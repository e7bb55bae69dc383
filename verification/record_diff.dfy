/**
 * The snapshot comparison shared by the proposal, customer and installed-machine
 * lists (compareProposalData, compareCustomerData, compareMachineData): both
 * snapshots are indexed by their key, then every key of the new snapshot counts as
 * added when the old one lacks it or as updated when the two records differ, and
 * every key of the old snapshot that the new one lacks counts as removed.
 *
 * Record equality is structural datatype equality, which stands for the source's
 * comparison of the two records' JSON texts.
 */
module RecordDiff {
  import opened Collections

  datatype Changes = Changes(added: nat, updated: nat, removed: nat)

  /**
   * `new Map(data.map(r => [key(r), r]))`: every key of the snapshot is present and
   * every entry is filed under its own key; IndexEntries and IndexLastWins below say
   * which record each entry holds.
   */
  function Index<R, K(==)>(s: seq<R>, key: R -> K): (m: map<K, R>)
    ensures forall i | 0 <= i < |s| :: key(s[i]) in m
    ensures forall k | k in m :: key(m[k]) == k
  {
    if |s| == 0 then map[]
    else
      var m := Index(s[1..], key);
      if key(s[0]) in m then m else m[key(s[0]) := s[0]]
  }

  /** Every entry of the index is a record of the snapshot. */
  lemma {:induction false} IndexEntries<R, K>(s: seq<R>, key: R -> K)
    ensures forall k | k in Index(s, key) :: Index(s, key)[k] in s
  {
    if |s| > 0 {
      IndexEntries(s[1..], key);
    }
  }

  /** No later record of s has the key of s[i]. */
  ghost predicate IsLastWithKey<R, K>(s: seq<R>, key: R -> K, i: int)
    requires 0 <= i < |s|
  {
    forall j | i < j < |s| :: key(s[j]) != key(s[i])
  }

  /** When a key occurs more than once, the last record with it wins. */
  lemma {:induction false} IndexLastWins<R, K>(s: seq<R>, key: R -> K, i: int)
    requires 0 <= i < |s| && IsLastWithKey(s, key, i)
    ensures Index(s, key)[key(s[i])] == s[i]
  {
    if i > 0 {
      assert s[1..][i - 1] == s[i];
      assert IsLastWithKey(s[1..], key, i - 1) by {
        forall j | i - 1 < j < |s[1..]| ensures key(s[1..][j]) != key(s[i]) {
          assert s[1..][j] == s[j + 1];
        }
      }
      IndexLastWins(s[1..], key, i - 1);
    } else if |s| > 1 {
      assert key(s[0]) !in Index(s[1..], key) by {
        forall k | k in Index(s[1..], key) ensures k != key(s[0]) {
          IndexEntries(s[1..], key);
          var j :| 0 <= j < |s[1..]| && s[1..][j] == Index(s[1..], key)[k];
          assert s[j + 1] == s[1..][j];
        }
      }
    }
  }

  /** The keys of a snapshot's records. */
  function KeysOf<R, K>(s: seq<R>, key: R -> K): set<K> {
    set i | 0 <= i < |s| :: key(s[i])
  }

  /** The index holds exactly the keys of the snapshot. */
  lemma IndexKeys<R, K>(s: seq<R>, key: R -> K)
    ensures Index(s, key).Keys == KeysOf(s, key)
  {
    var m := Index(s, key);
    forall k | k in m ensures k in KeysOf(s, key) {
      IndexEntries(s, key);
      var i :| 0 <= i < |s| && s[i] == m[k];
      assert key(s[i]) == k;
    }
  }

  /** The keys present in both snapshots whose records differ. */
  function ChangedKeys<R(==), K>(o: map<K, R>, n: map<K, R>): set<K> {
    set k | k in o && k in n && o[k] != n[k]
  }

  /**
   * The reference definition of the comparison, by sets of keys. Every key of the
   * new snapshot is either added or shared, every key of the old one is either
   * removed or shared, and only shared keys can be updated.
   */
  function SnapshotDiff<R(==), K(==)>(oldData: seq<R>, newData: seq<R>, key: R -> K): (d: Changes)
    ensures d.added + |Index(oldData, key).Keys * Index(newData, key).Keys| == |Index(newData, key).Keys|
    ensures d.removed + |Index(oldData, key).Keys * Index(newData, key).Keys| == |Index(oldData, key).Keys|
    ensures d.updated <= |Index(oldData, key).Keys * Index(newData, key).Keys|
  {
    var o := Index(oldData, key);
    var n := Index(newData, key);
    PartitionCard(n.Keys, o.Keys);
    PartitionCard(o.Keys, n.Keys);
    assert n.Keys * o.Keys == o.Keys * n.Keys;
    SubsetCard(ChangedKeys(o, n), o.Keys * n.Keys);
    Changes(|n.Keys - o.Keys|, |ChangedKeys(o, n)|, |o.Keys - n.Keys|)
  }

  lemma PartitionCard<K>(a: set<K>, b: set<K>)
    ensures |a| == |a - b| + |a * b|
  {
    assert a == (a - b) + (a * b);
    assert (a - b) * (a * b) == {};
  }

  lemma SubsetCard<K>(a: set<K>, b: set<K>)
    requires a <= b
    ensures |a| <= |b|
  {
    assert b == a + (b - a);
  }

  /**
   * The comparison as the source computes it: index both snapshots, one pass over
   * the entries of the new index, then one pass over the keys of the old index.
   */
  method CountChanges<R(==), K(==)>(oldData: seq<R>, newData: seq<R>, key: R -> K) returns (d: Changes)
    ensures d == SnapshotDiff(oldData, newData, key)
    ensures d.added == |KeysOf(newData, key) - KeysOf(oldData, key)|
    ensures d.removed == |KeysOf(oldData, key) - KeysOf(newData, key)|
    ensures d.updated <= |KeysOf(oldData, key) * KeysOf(newData, key)|
  {
    IndexKeys(oldData, key);
    IndexKeys(newData, key);
    var oldIds := Index(oldData, key);
    var newIds := Index(newData, key);
    var added, updated := CountNewEntries(oldIds, newIds);
    var removed := CountMissingKeys(oldIds, newIds);
    d := Changes(added, updated, removed);
  }

  /** The first pass: new keys absent from the old index, and shared keys whose records differ. */
  method CountNewEntries<R(==), K(==)>(oldIds: map<K, R>, newIds: map<K, R>) returns (added: nat, updated: nat)
    ensures added == |newIds.Keys - oldIds.Keys|
    ensures updated == |ChangedKeys(oldIds, newIds)|
  {
    added, updated := 0, 0;
    var todo := newIds.Keys;
    ghost var changed := ChangedKeys(oldIds, newIds);
    assert changed * todo == changed;
    while todo != {}
      invariant todo <= newIds.Keys
      invariant added + |todo - oldIds.Keys| == |newIds.Keys - oldIds.Keys|
      invariant updated + |changed * todo| == |changed|
      decreases |todo|
    {
      var id :| id in todo;
      RemoveOne(todo, oldIds.Keys, id);
      RemoveOneMeet(changed, todo, id);
      if id !in oldIds {
        added := added + 1;
      } else if oldIds[id] != newIds[id] {
        updated := updated + 1;
      }
      todo := todo - {id};
    }
  }

  /** The second pass: old keys absent from the new index. */
  method CountMissingKeys<R, K(==)>(oldIds: map<K, R>, newIds: map<K, R>) returns (removed: nat)
    ensures removed == |oldIds.Keys - newIds.Keys|
  {
    removed := 0;
    var rest := oldIds.Keys;
    while rest != {}
      invariant removed + |rest - newIds.Keys| == |oldIds.Keys - newIds.Keys|
      decreases |rest|
    {
      var id :| id in rest;
      RemoveOne(rest, newIds.Keys, id);
      if id !in newIds {
        removed := removed + 1;
      }
      rest := rest - {id};
    }
  }

  /** Taking one element out of a set of pending keys. */
  lemma RemoveOne<K>(todo: set<K>, other: set<K>, id: K)
    requires id in todo
    ensures |(todo - {id}) - other| == |todo - other| - if id in other then 0 else 1
  {
    if id in other {
      assert (todo - {id}) - other == todo - other;
    } else {
      assert (todo - {id}) - other == (todo - other) - {id};
    }
  }

  lemma RemoveOneMeet<K>(changed: set<K>, todo: set<K>, id: K)
    requires id in todo
    ensures |changed * (todo - {id})| == |changed * todo| - if id in changed then 1 else 0
  {
    if id in changed {
      assert changed * (todo - {id}) == (changed * todo) - {id};
    } else {
      assert changed * (todo - {id}) == changed * todo;
    }
  }

  /** Comparing a snapshot with itself finds no change. */
  lemma SelfDiffIsZero<R, K>(s: seq<R>, key: R -> K)
    ensures SnapshotDiff(s, s, key) == Changes(0, 0, 0)
  {
    var m := Index(s, key);
    assert ChangedKeys(m, m) == {};
  }

  /** Swapping the snapshots swaps added and removed and keeps updated. */
  lemma DiffSwap<R, K>(a: seq<R>, b: seq<R>, key: R -> K)
    ensures SnapshotDiff(b, a, key).added == SnapshotDiff(a, b, key).removed
    ensures SnapshotDiff(b, a, key).removed == SnapshotDiff(a, b, key).added
    ensures SnapshotDiff(b, a, key).updated == SnapshotDiff(a, b, key).updated
  {
    var ia, ib := Index(a, key), Index(b, key);
    assert ChangedKeys(ia, ib) == ChangedKeys(ib, ia);
  }

  /** Snapshots with the same index compare alike: the order of distinct keys does not matter. */
  lemma DiffDependsOnIndexOnly<R, K>(a: seq<R>, a': seq<R>, b: seq<R>, b': seq<R>, key: R -> K)
    requires Index(a, key) == Index(a', key) && Index(b, key) == Index(b', key)
    ensures SnapshotDiff(a, b, key) == SnapshotDiff(a', b', key)
  {
  }

  /** Prepending a record under a fresh key adds it to the index and changes nothing else. */
  lemma IndexOfPrepend<R, K>(x: R, s: seq<R>, key: R -> K)
    requires key(x) !in Index(s, key)
    ensures Index([x] + s, key) == Index(s, key)[key(x) := x]
  {
    assert ([x] + s)[1..] == s;
  }

  /** Prepending a record under a fresh key counts as exactly one addition. */
  lemma DiffOfFreshPrepend<R, K>(x: R, s: seq<R>, key: R -> K)
    requires key(x) !in Index(s, key)
    ensures SnapshotDiff(s, [x] + s, key) == Changes(1, 0, 0)
  {
    IndexOfPrepend(x, s, key);
    var o, n := Index(s, key), Index([x] + s, key);
    assert n.Keys - o.Keys == {key(x)};
    assert ChangedKeys(o, n) == {};
    assert o.Keys - n.Keys == {};
  }

  /**
   * An update that keeps every record's key keeps the index's keys, and the entry of
   * each key is updated exactly when its record is selected.
   */
  lemma {:induction false} IndexOfUpdate<R, K>(s: seq<R>, key: R -> K, test: R -> bool, change: R -> R)
    requires forall x :: key(change(x)) == key(x)
    ensures Index(UpdateWhere(s, test, change), key).Keys == Index(s, key).Keys
    ensures forall k | k in Index(s, key) ::
      Index(UpdateWhere(s, test, change), key)[k]
        == if test(Index(s, key)[k]) then change(Index(s, key)[k]) else Index(s, key)[k]
  {
    if |s| > 0 {
      var r := UpdateWhere(s, test, change);
      assert r[1..] == UpdateWhere(s[1..], test, change);
      IndexOfUpdate(s[1..], key, test, change);
    }
  }

  /**
   * Comparing a store with a key-preserving update of itself finds no addition and no
   * removal, and at most one update per key whose record was selected.
   */
  lemma DiffOfUpdate<R, K>(s: seq<R>, key: R -> K, test: R -> bool, change: R -> R)
    requires forall x :: key(change(x)) == key(x)
    ensures SnapshotDiff(s, UpdateWhere(s, test, change), key).added == 0
    ensures SnapshotDiff(s, UpdateWhere(s, test, change), key).removed == 0
    ensures SnapshotDiff(s, UpdateWhere(s, test, change), key).updated
      <= |set k | k in Index(s, key) && test(Index(s, key)[k])|
  {
    IndexOfUpdate(s, key, test, change);
    var o, n := Index(s, key), Index(UpdateWhere(s, test, change), key);
    var selected := set k | k in o && test(o[k]);
    assert n.Keys - o.Keys == {} && o.Keys - n.Keys == {};
    assert ChangedKeys(o, n) <= selected by {
      forall k | k in ChangedKeys(o, n) ensures k in selected {
        assert o[k] != n[k];
      }
    }
    SubsetCard(ChangedKeys(o, n), selected);
  }
}
