/**
 * The array operations the list views use, as pure functions over sequences:
 * `filter`, an update of the elements that match a test (`map` with a conditional),
 * and the stable `sort` of `Array.prototype.sort` with a comparator.
 */
module Collections {

  /** `s.filter(p)`: the elements that pass, in their original order. */
  function Filter<T(!new)>(s: seq<T>, p: T -> bool): (r: seq<T>)
    ensures |r| <= |s|
    ensures forall x :: x in r <==> x in s && p(x)
    ensures forall x :: multiset(r)[x] == if p(x) then multiset(s)[x] else 0
  {
    if |s| == 0 then []
    else
      var rest := Filter(s[1..], p);
      assert s == [s[0]] + s[1..];
      if p(s[0]) then [s[0]] + rest else rest
  }

  /** Whatever holds the filtered elements in any order holds only elements that pass. */
  lemma FilteredMembers<T(!new)>(r: seq<T>, s: seq<T>, p: T -> bool)
    requires multiset(r) == multiset(Filter(s, p))
    ensures forall x | x in r :: p(x)
  {
    forall x | x in r ensures p(x) {
      assert x in multiset(r);
      assert x in Filter(s, p);
    }
  }

  /** Filtering distributes over concatenation, so it keeps the relative order of what it keeps. */
  lemma {:induction false} FilterConcat<T(!new)>(a: seq<T>, b: seq<T>, p: T -> bool)
    ensures Filter(a + b, p) == Filter(a, p) + Filter(b, p)
  {
    if |a| > 0 {
      assert (a + b)[1..] == a[1..] + b;
      FilterConcat(a[1..], b, p);
    } else {
      assert a + b == b;
    }
  }

  /** Filters with tests that agree on every element agree. */
  lemma {:induction false} FilterExt<T(!new)>(s: seq<T>, p: T -> bool, q: T -> bool)
    requires forall i | 0 <= i < |s| :: p(s[i]) == q(s[i])
    ensures Filter(s, p) == Filter(s, q)
  {
    if |s| > 0 {
      FilterExt(s[1..], p, q);
    }
  }

  /** A filter that every element passes changes nothing. */
  lemma {:induction false} FilterKeepsAll<T(!new)>(s: seq<T>, p: T -> bool)
    requires forall i | 0 <= i < |s| :: p(s[i])
    ensures Filter(s, p) == s
  {
    if |s| > 0 {
      FilterKeepsAll(s[1..], p);
      assert s == [s[0]] + s[1..];
    }
  }

  /** Two filters in a row are one filter on the conjunction. */
  lemma {:induction false} FilterTwice<T(!new)>(s: seq<T>, p: T -> bool, q: T -> bool, both: T -> bool)
    requires forall x :: both(x) == (p(x) && q(x))
    ensures Filter(Filter(s, p), q) == Filter(s, both)
  {
    if |s| > 0 {
      FilterTwice(s[1..], p, q, both);
      if p(s[0]) {
        assert Filter(s, p) == [s[0]] + Filter(s[1..], p);
        assert ([s[0]] + Filter(s[1..], p))[1..] == Filter(s[1..], p);
      }
    }
  }

  /**
   * `s.map(x => test(x) ? change(x) : x)`: every element that passes the test is
   * replaced by its changed form, every other element is kept, positions are kept.
   */
  function UpdateWhere<T>(s: seq<T>, test: T -> bool, change: T -> T): (r: seq<T>)
    ensures |r| == |s|
    ensures forall i | 0 <= i < |s| :: r[i] == if test(s[i]) then change(s[i]) else s[i]
  {
    if |s| == 0 then []
    else [if test(s[0]) then change(s[0]) else s[0]] + UpdateWhere(s[1..], test, change)
  }

  /** An update no element is selected for is the identity. */
  lemma UpdateNothing<T>(s: seq<T>, test: T -> bool, change: T -> T)
    requires forall i | 0 <= i < |s| :: !test(s[i])
    ensures UpdateWhere(s, test, change) == s
  {
  }

  /** Two updates of the same selection, where the first keeps the selection, are one update. */
  lemma UpdateTwice<T>(s: seq<T>, test: T -> bool, f: T -> T, g: T -> T, gf: T -> T)
    requires forall x :: test(x) ==> test(f(x))
    requires forall x :: test(x) ==> gf(x) == g(f(x))
    ensures UpdateWhere(UpdateWhere(s, test, f), test, g) == UpdateWhere(s, test, gf)
  {
  }

  /** An update that changes nothing it selects is the identity. */
  lemma UpdateIdentity<T>(s: seq<T>, test: T -> bool, f: T -> T)
    requires forall x :: test(x) ==> f(x) == x
    ensures UpdateWhere(s, test, f) == s
  {
  }

  // ---------------------------------------------------------------------------
  // Comparators and the stable sort

  /**
   * What `Array.prototype.sort` needs of a comparator to be consistent: the sign
   * flips when the arguments are swapped, and "not after" is transitive.
   */
  ghost predicate IsComparator<T(!new)>(cmp: (T, T) -> int) {
    && (forall a, b :: cmp(a, b) < 0 <==> cmp(b, a) > 0)
    && (forall a, b, c :: cmp(a, b) <= 0 && cmp(b, c) <= 0 ==> cmp(a, c) <= 0)
  }

  /** Every element is not after every later one. */
  ghost predicate SortedBy<T>(s: seq<T>, cmp: (T, T) -> int) {
    forall i, j | 0 <= i < j < |s| :: cmp(s[i], s[j]) <= 0
  }

  /** Reversing a consistent comparator (`-comparison`) gives a consistent comparator. */
  lemma NegatedComparator<T(!new)>(cmp: (T, T) -> int, neg: (T, T) -> int)
    requires IsComparator(cmp)
    requires forall a, b :: neg(a, b) == -cmp(a, b)
    ensures IsComparator(neg)
  {
    forall a, b, c | neg(a, b) <= 0 && neg(b, c) <= 0
      ensures neg(a, c) <= 0
    {
      assert cmp(b, a) <= 0 && cmp(c, b) <= 0;
    }
  }

  /** Insert x before the first element it is not after. */
  function Insert<T>(x: T, s: seq<T>, cmp: (T, T) -> int): (r: seq<T>)
    ensures multiset(r) == multiset(s) + multiset{x}
  {
    if |s| == 0 then [x]
    else if cmp(x, s[0]) <= 0 then [x] + s
    else
      assert s == [s[0]] + s[1..];
      [s[0]] + Insert(x, s[1..], cmp)
  }

  /**
   * The stable sort of `Array.prototype.sort`: insertion from the back, each element
   * placed before every element it is not after, so equal elements keep their order.
   */
  function Sort<T>(s: seq<T>, cmp: (T, T) -> int): (r: seq<T>)
    ensures multiset(r) == multiset(s)
    ensures |r| == |s|
  {
    if |s| == 0 then []
    else
      assert s == [s[0]] + s[1..];
      Insert(s[0], Sort(s[1..], cmp), cmp)
  }

  lemma SortedTail<T>(s: seq<T>, cmp: (T, T) -> int)
    requires |s| > 0 && SortedBy(s, cmp)
    ensures SortedBy(s[1..], cmp)
  {
    forall i, j | 0 <= i < j < |s[1..]| ensures cmp(s[1..][i], s[1..][j]) <= 0 {
      assert s[1..][i] == s[i + 1] && s[1..][j] == s[j + 1];
    }
  }

  lemma SortedCons<T>(h: T, t: seq<T>, cmp: (T, T) -> int)
    requires SortedBy(t, cmp)
    requires forall j | 0 <= j < |t| :: cmp(h, t[j]) <= 0
    ensures SortedBy([h] + t, cmp)
  {
    var r := [h] + t;
    forall i, j | 0 <= i < j < |r| ensures cmp(r[i], r[j]) <= 0 {
      assert r[j] == t[j - 1];
      if i > 0 {
        assert r[i] == t[i - 1];
      }
    }
  }

  /** A lower bound of x and of every element of s bounds every element of the insertion. */
  lemma InsertBounded<T>(h: T, x: T, s: seq<T>, cmp: (T, T) -> int)
    requires cmp(h, x) <= 0
    requires forall j | 0 <= j < |s| :: cmp(h, s[j]) <= 0
    ensures forall j | 0 <= j < |Insert(x, s, cmp)| :: cmp(h, Insert(x, s, cmp)[j]) <= 0
  {
    var r := Insert(x, s, cmp);
    forall j | 0 <= j < |r| ensures cmp(h, r[j]) <= 0 {
      assert r[j] in multiset(r);
      if r[j] != x {
        assert r[j] in multiset(s);
        var k :| 0 <= k < |s| && s[k] == r[j];
      }
    }
  }

  /** The comparator laws, for the elements of s only. */
  ghost predicate ConsistentOn<T>(cmp: (T, T) -> int, s: seq<T>) {
    && (forall a, b | a in s && b in s :: cmp(a, b) < 0 <==> cmp(b, a) > 0)
    && (forall a, b, c | a in s && b in s && c in s :: cmp(a, b) <= 0 && cmp(b, c) <= 0 ==> cmp(a, c) <= 0)
  }

  lemma ComparatorConsistentOn<T(!new)>(cmp: (T, T) -> int, s: seq<T>)
    requires IsComparator(cmp)
    ensures ConsistentOn(cmp, s)
  {
  }

  lemma ConsistentOnSubset<T>(cmp: (T, T) -> int, s: seq<T>, t: seq<T>)
    requires ConsistentOn(cmp, s)
    requires forall x | x in t :: x in s
    ensures ConsistentOn(cmp, t)
  {
  }

  lemma {:induction false} InsertSorted<T>(x: T, s: seq<T>, cmp: (T, T) -> int)
    requires ConsistentOn(cmp, [x] + s)
    requires SortedBy(s, cmp)
    ensures SortedBy(Insert(x, s, cmp), cmp)
  {
    if |s| > 0 && cmp(x, s[0]) > 0 {
      SortedTail(s, cmp);
      ConsistentOnSubset(cmp, [x] + s, [x] + s[1..]);
      InsertSorted(x, s[1..], cmp);
      assert x in [x] + s && s[0] in [x] + s;
      assert cmp(s[0], x) < 0;
      forall j | 0 <= j < |s[1..]| ensures cmp(s[0], s[1..][j]) <= 0 {
        assert s[1..][j] == s[j + 1];
      }
      InsertBounded(s[0], x, s[1..], cmp);
      SortedCons(s[0], Insert(x, s[1..], cmp), cmp);
    } else if |s| > 0 {
      forall j | 0 <= j < |s| ensures cmp(x, s[j]) <= 0 {
        if j > 0 {
          assert x in [x] + s && s[0] in [x] + s && s[j] in [x] + s;
          assert cmp(s[0], s[j]) <= 0;
        }
      }
      SortedCons(x, s, cmp);
    }
  }

  /** When the comparator is consistent on the elements, the sort leaves every element not after the later ones. */
  lemma {:induction false} SortSorted<T>(s: seq<T>, cmp: (T, T) -> int)
    requires ConsistentOn(cmp, s)
    ensures SortedBy(Sort(s, cmp), cmp)
  {
    if |s| > 0 {
      ConsistentOnSubset(cmp, s, s[1..]);
      SortSorted(s[1..], cmp);
      var r := Sort(s[1..], cmp);
      forall x | x in [s[0]] + r ensures x in s {
        if x != s[0] {
          assert x in multiset(r);
          assert x in multiset(s[1..]);
        }
      }
      ConsistentOnSubset(cmp, s, [s[0]] + r);
      InsertSorted(s[0], r, cmp);
    }
  }

  /** A record comparator that compares one projection of each record. */
  function ByKey<T, V>(proj: T -> V, cmp: (V, V) -> int): (T, T) -> int {
    (a: T, b: T) => cmp(proj(a), proj(b))
  }

  lemma ByKeyIsComparator<T(!new), V(!new)>(proj: T -> V, cmp: (V, V) -> int)
    requires IsComparator(cmp)
    ensures IsComparator(ByKey(proj, cmp))
  {
    var c := ByKey(proj, cmp);
    forall a, b, d | c(a, b) <= 0 && c(b, d) <= 0 ensures c(a, d) <= 0 {
      assert cmp(proj(a), proj(b)) <= 0 && cmp(proj(b), proj(d)) <= 0;
    }
  }
}
