/** A stable sort by a two-part key, as Python's sorted/list.sort behave with a
    key function returning a pair (or a single number). */
module Sorting {

  /** A sort key compared lexicographically, like the pair (major, minor). */
  datatype Key = Key(major: int, minor: int)

  predicate KeyLe(a: Key, b: Key)
  {
    a.major < b.major || (a.major == b.major && a.minor <= b.minor)
  }

  ghost predicate SortedBy<T>(s: seq<T>, key: T -> Key)
  {
    forall i, j :: 0 <= i < j < |s| ==> KeyLe(key(s[i]), key(s[j]))
  }

  /** Inserts `a` into the sorted `s` in front of the first element whose key
      is not smaller, so `a` precedes the elements with an equal key. */
  function Insert<T>(a: T, s: seq<T>, key: T -> Key): (r: seq<T>)
    requires SortedBy(s, key)
    ensures |r| == |s| + 1
    ensures multiset(r) == multiset(s) + multiset{a}
    ensures SortedBy(r, key)
    decreases |s|
  {
    if |s| == 0 || KeyLe(key(a), key(s[0])) then [a] + s
    else
      var t := Insert(a, s[1..], key);
      assert s == [s[0]] + s[1..];
      LowerBoundKept(s[0], a, s[1..], t, key);
      SortedCons(s[0], t, key);
      [s[0]] + t
  }

  /** A key below that of `a` and of every element of `s` stays below every
      element drawn from `a` and `s`. */
  lemma LowerBoundKept<T>(b: T, a: T, s: seq<T>, t: seq<T>, key: T -> Key)
    requires KeyLe(key(b), key(a))
    requires forall k :: 0 <= k < |s| ==> KeyLe(key(b), key(s[k]))
    requires multiset(t) == multiset(s) + multiset{a}
    ensures forall k :: 0 <= k < |t| ==> KeyLe(key(b), key(t[k]))
  {
    forall k | 0 <= k < |t|
      ensures KeyLe(key(b), key(t[k]))
    {
      assert t[k] in multiset(t);
      if t[k] != a {
        var m :| 0 <= m < |s| && s[m] == t[k];
      }
    }
  }

  /** An element whose key is at most every key of a sorted sequence can go
      in front of it. */
  lemma SortedCons<T>(b: T, t: seq<T>, key: T -> Key)
    requires SortedBy(t, key)
    requires forall k :: 0 <= k < |t| ==> KeyLe(key(b), key(t[k]))
    ensures SortedBy([b] + t, key)
  {
    var r := [b] + t;
    forall i, j | 0 <= i < j < |r|
      ensures KeyLe(key(r[i]), key(r[j]))
    {
      assert r[j] == t[j - 1];
      if i > 0 {
        assert r[i] == t[i - 1];
      }
    }
  }

  /** Insertion sort: the elements of `s` in key order, elements with equal
      keys keeping their relative order. */
  function SortBy<T>(s: seq<T>, key: T -> Key): (r: seq<T>)
    ensures |r| == |s|
    ensures multiset(r) == multiset(s)
    ensures SortedBy(r, key)
    decreases |s|
  {
    if |s| == 0 then []
    else
      assert s == [s[0]] + s[1..];
      Insert(s[0], SortBy(s[1..], key), key)
  }

  /** Sorting an already sorted sequence leaves it as it is: the sort never
      reorders elements it does not have to. */
  lemma {:induction false} SortSortedIsIdentity<T>(s: seq<T>, key: T -> Key)
    requires SortedBy(s, key)
    ensures SortBy(s, key) == s
    decreases |s|
  {
    if |s| > 0 {
      SortSortedIsIdentity(s[1..], key);
      assert SortBy(s[1..], key) == s[1..];
      if |s| > 1 {
        assert KeyLe(key(s[0]), key(s[1..][0]));
      }
      assert s == [s[0]] + s[1..];
    }
  }
}
