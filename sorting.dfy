/**
 * The in-place sorts the scheduler applies (std::ranges::sort with a projection or a
 * three-way comparison), modelled as one insertion sort over a pair-valued sort key.
 * Only sortedness and permutation are promised, as std::ranges::sort promises no more.
 */
module Sorting {

  /** Lexicographic order on sort keys. */
  predicate KeyLe(a: (int, int), b: (int, int)) {
    a.0 < b.0 || (a.0 == b.0 && a.1 <= b.1)
  }

  predicate SortedBy<T>(s: seq<T>, key: T -> (int, int)) {
    forall j, k :: 0 <= j < k < |s| ==> KeyLe(key(s[j]), key(s[k]))
  }

  /** Inserts x in front of the first element whose key is strictly greater. */
  method InsertByKey<T>(s: seq<T>, x: T, key: T -> (int, int)) returns (r: seq<T>)
    requires SortedBy(s, key)
    ensures SortedBy(r, key)
    ensures multiset(r) == multiset(s) + multiset{x}
  {
    var j := 0;
    while j < |s| && KeyLe(key(s[j]), key(x))
      invariant 0 <= j <= |s|
      invariant forall m :: 0 <= m < j ==> KeyLe(key(s[m]), key(x))
    {
      j := j + 1;
    }
    r := s[..j] + [x] + s[j..];
    assert s == s[..j] + s[j..];
    InsertKeepsSorted(s, j, x, key);
  }

  lemma InsertKeepsSorted<T>(s: seq<T>, j: nat, x: T, key: T -> (int, int))
    requires SortedBy(s, key) && j <= |s|
    requires forall m :: 0 <= m < j ==> KeyLe(key(s[m]), key(x))
    requires j < |s| ==> !KeyLe(key(s[j]), key(x))
    ensures SortedBy(s[..j] + [x] + s[j..], key)
  {
    var r := s[..j] + [x] + s[j..];
    forall a, b | 0 <= a < b < |r| ensures KeyLe(key(r[a]), key(r[b])) {
      if b < j {
        assert r[a] == s[a] && r[b] == s[b];
      } else if b == j {
        assert r[a] == s[a] && r[b] == x;
      } else if a > j {
        assert r[a] == s[a - 1] && r[b] == s[b - 1];
      } else if a == j {
        assert r[a] == x && r[b] == s[b - 1];
        assert KeyLe(key(s[j]), key(s[b - 1]));
      } else {
        assert r[a] == s[a] && r[b] == s[b - 1];
      }
    }
  }

  method SortByKey<T>(s: seq<T>, key: T -> (int, int)) returns (r: seq<T>)
    ensures SortedBy(r, key)
    ensures multiset(r) == multiset(s)
  {
    r := [];
    var i := 0;
    while i < |s|
      invariant 0 <= i <= |s|
      invariant SortedBy(r, key)
      invariant multiset(r) == multiset(s[..i])
    {
      r := InsertByKey(r, s[i], key);
      assert s[..i + 1] == s[..i] + [s[i]];
      i := i + 1;
    }
    assert s[..i] == s;
  }
}
