/**
 * The pieces every list view shares: the status filter buttons, the sort
 * configuration with its toggle (requestSort), and the direction applied to a
 * comparison.
 */
module ListView {
  import opened Wrappers
  import opened Collections

  /** A status filter: every record, or only those with one status. */
  datatype StatusFilter<S> = All | Only(status: S)

  predicate Passes<S(==)>(f: StatusFilter<S>, s: S) {
    f.All? || f.status == s
  }

  datatype Direction = Ascending | Descending

  datatype SortConfig<K> = SortConfig(key: K, direction: Direction)

  /**
   * requestSort: the requested key, descending exactly when the current
   * configuration sorts on that key ascending, ascending otherwise.
   */
  function RequestSort<K(==)>(current: Option<SortConfig<K>>, key: K): (next: SortConfig<K>)
    ensures next.key == key
    ensures next.direction == Descending <==> current == Some(SortConfig(key, Ascending))
  {
    var direction :=
      if current.Some? && current.value.key == key && current.value.direction == Ascending
      then Descending else Ascending;
    SortConfig(key, direction)
  }

  /** Requesting the current key twice gives back the configuration: the direction toggles. */
  lemma RequestSameKeyTwice<K>(c: SortConfig<K>)
    ensures RequestSort(Some(RequestSort(Some(c), c.key)), c.key) == c
    ensures RequestSort(Some(c), c.key).direction != c.direction
  {
  }

  /** Requesting a key other than the current one, or with nothing configured, sorts ascending. */
  lemma RequestOtherKey<K>(current: Option<SortConfig<K>>, key: K)
    requires current.None? || current.value.key != key
    ensures RequestSort(current, key) == SortConfig(key, Ascending)
  {
  }

  /** `direction === 'ascending' ? comparison : -comparison` */
  function Directed<T>(cmp: (T, T) -> int, d: Direction): (T, T) -> int {
    if d == Ascending then cmp else (a: T, b: T) => -cmp(a, b)
  }

  lemma DirectedIsComparator<T(!new)>(cmp: (T, T) -> int, d: Direction)
    requires IsComparator(cmp)
    ensures IsComparator(Directed(cmp, d))
  {
    if d == Descending {
      NegatedComparator(cmp, Directed(cmp, d));
    }
  }

  /**
   * Sorted descending by a consistent comparison means every element is not before
   * the later ones under the ascending comparison.
   */
  lemma SortedDescending<T(!new)>(s: seq<T>, cmp: (T, T) -> int)
    requires IsComparator(cmp)
    requires SortedBy(s, Directed(cmp, Descending))
    ensures forall i, j | 0 <= i < j < |s| :: cmp(s[j], s[i]) <= 0
  {
    forall i, j | 0 <= i < j < |s| ensures cmp(s[j], s[i]) <= 0 {
      assert Directed(cmp, Descending)(s[i], s[j]) <= 0;
    }
  }
}
