/**
 * The record updates shared by the list views: saving an edit replaces the record
 * with the edited one's key (handleSaveEdit), and a field update applies a change
 * to the records with a given key (handleStatusChange).
 */
module Records {
  import opened Collections
  import opened RecordDiff

  /** `prev.map(r => key(r) === key(edited) ? edited : r)` */
  function ReplaceByKey<R, K(==)>(s: seq<R>, key: R -> K, edited: R): (r: seq<R>)
    ensures |r| == |s|
    ensures forall i | 0 <= i < |s| :: key(s[i]) != key(edited) ==> r[i] == s[i]
    ensures forall i | 0 <= i < |s| :: key(s[i]) == key(edited) ==> r[i] == edited
  {
    UpdateWhere(s, (x: R) => key(x) == key(edited), (x: R) => if key(x) == key(edited) then edited else x)
  }

  /** An edit whose key no record has leaves the store unchanged. */
  lemma ReplaceAbsent<R, K>(s: seq<R>, key: R -> K, edited: R)
    requires forall i | 0 <= i < |s| :: key(s[i]) != key(edited)
    ensures ReplaceByKey(s, key, edited) == s
  {
  }

  /** Saving the same edit twice is saving it once. */
  lemma ReplaceIdempotent<R, K>(s: seq<R>, key: R -> K, edited: R)
    ensures ReplaceByKey(ReplaceByKey(s, key, edited), key, edited) == ReplaceByKey(s, key, edited)
  {
  }

  /** The keys present in the store never change under ReplaceByKey. */
  lemma ReplaceKeepsKeys<R, K>(s: seq<R>, key: R -> K, edited: R)
    ensures forall i | 0 <= i < |s| :: key(ReplaceByKey(s, key, edited)[i]) == key(s[i])
  {
  }

  /**
   * Compared with the store before, a saved edit adds and removes nothing and
   * updates at most the one key it was saved under.
   */
  lemma ReplaceDiff<R, K>(s: seq<R>, key: R -> K, edited: R)
    ensures SnapshotDiff(s, ReplaceByKey(s, key, edited), key).added == 0
    ensures SnapshotDiff(s, ReplaceByKey(s, key, edited), key).removed == 0
    ensures SnapshotDiff(s, ReplaceByKey(s, key, edited), key).updated <= 1
  {
    var test := (x: R) => key(x) == key(edited);
    var change := (x: R) => if key(x) == key(edited) then edited else x;
    DiffOfUpdate(s, key, test, change);
    var o := Index(s, key);
    var selected := set k | k in o && test(o[k]);
    assert selected <= {key(edited)};
    SubsetCard(selected, {key(edited)});
  }

  /** `prev.map(r => key(r) === k ? change(r) : r)` for a change that keeps the key. */
  function UpdateByKey<R(!new), K(==)>(s: seq<R>, key: R -> K, k: K, change: R -> R): (r: seq<R>)
    requires forall x :: key(change(x)) == key(x)
    ensures |r| == |s|
    ensures forall i | 0 <= i < |s| :: key(s[i]) != k ==> r[i] == s[i]
    ensures forall i | 0 <= i < |s| :: key(s[i]) == k ==> r[i] == change(s[i])
    ensures forall i | 0 <= i < |s| :: key(r[i]) == key(s[i])
  {
    UpdateWhere(s, (x: R) => key(x) == k, change)
  }

  /** A key-preserving update of one key adds and removes nothing and updates at most that key. */
  lemma UpdateByKeyDiff<R(!new), K>(s: seq<R>, key: R -> K, k: K, change: R -> R)
    requires forall x :: key(change(x)) == key(x)
    ensures SnapshotDiff(s, UpdateByKey(s, key, k, change), key).added == 0
    ensures SnapshotDiff(s, UpdateByKey(s, key, k, change), key).removed == 0
    ensures SnapshotDiff(s, UpdateByKey(s, key, k, change), key).updated <= 1
  {
    var test := (x: R) => key(x) == k;
    DiffOfUpdate(s, key, test, change);
    var o := Index(s, key);
    var selected := set j | j in o && test(o[j]);
    assert selected <= {k};
    SubsetCard(selected, {k});
  }
}
