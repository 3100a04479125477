/** The ordering the database applies for `orderBy: { field: "asc" }`:
    a permutation of the selected rows that is ascending in the key.
    The model sorts by insertion; rows with equal keys keep their
    relative order, an order the database does not promise. */
module StoreOrder {

  predicate SortedBy<T>(s: seq<T>, key: T -> int) {
    forall i, j :: 0 <= i < j < |s| ==> key(s[i]) <= key(s[j])
  }

  /** Puts `x` into an ascending sequence, keeping it ascending. */
  function InsertBy<T(==)>(x: T, s: seq<T>, key: T -> int): (r: seq<T>)
    requires SortedBy(s, key)
    ensures SortedBy(r, key)
    ensures multiset(r) == multiset(s) + multiset{x}
  {
    if s == [] || key(x) <= key(s[0]) then [x] + s
    else
      SortedSplit(s, key);
      var rest := InsertBy(x, s[1..], key);
      BoundFromParts(rest, s[1..], x, key, key(s[0]));
      SortedCons(s[0], rest, key);
      assert s == [s[0]] + s[1..];
      [s[0]] + rest
  }

  /** A sorted sequence is its least element followed by a sorted rest. */
  lemma SortedSplit<T>(s: seq<T>, key: T -> int)
    requires SortedBy(s, key) && s != []
    ensures SortedBy(s[1..], key)
    ensures forall k :: 0 <= k < |s[1..]| ==> key(s[0]) <= key(s[1..][k])
  {
    forall k | 0 <= k < |s[1..]| ensures key(s[0]) <= key(s[1..][k]) {
      assert s[1..][k] == s[k + 1];
    }
  }

  /** An element no greater than any of a sorted rest, put in front of it,
      keeps it sorted. */
  lemma SortedCons<T>(h: T, rest: seq<T>, key: T -> int)
    requires SortedBy(rest, key)
    requires forall k :: 0 <= k < |rest| ==> key(h) <= key(rest[k])
    ensures SortedBy([h] + rest, key)
  {
    var r := [h] + rest;
    forall i, j | 0 <= i < j < |r| ensures key(r[i]) <= key(r[j]) {
      assert r[j] == rest[j - 1];
      if i > 0 {
        assert r[i] == rest[i - 1];
      }
    }
  }

  /** A lower bound on the keys of `b` and of `x` is one on the keys of any
      `a` made of the same elements. */
  lemma BoundFromParts<T>(a: seq<T>, b: seq<T>, x: T, key: T -> int, lo: int)
    requires multiset(a) == multiset(b) + multiset{x}
    requires lo <= key(x)
    requires forall k :: 0 <= k < |b| ==> lo <= key(b[k])
    ensures forall k :: 0 <= k < |a| ==> lo <= key(a[k])
  {
    forall k | 0 <= k < |a| ensures lo <= key(a[k]) {
      var y := a[k];
      assert y in multiset(a);
      if y != x {
        assert y in multiset(b);
        var j :| 0 <= j < |b| && b[j] == y;
      }
    }
  }

  /** `orderBy key asc`: the same rows, ascending in `key`. */
  function SortBy<T(==)>(s: seq<T>, key: T -> int): (r: seq<T>)
    ensures SortedBy(r, key)
    ensures multiset(r) == multiset(s)
  {
    if s == [] then []
    else
      assert s == [s[0]] + s[1..];
      InsertBy(s[0], SortBy(s[1..], key), key)
  }

  /** Rows already in key order come back unchanged. */
  lemma {:induction false} SortBySorted<T>(s: seq<T>, key: T -> int)
    requires SortedBy(s, key)
    ensures SortBy(s, key) == s
  {
    if s != [] {
      SortBySorted(s[1..], key);
      assert s == [s[0]] + s[1..];
    }
  }
}
