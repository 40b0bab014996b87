/** Ordering and paging used by the search orchestrator, the comment listing and the
    PDF script's file listing: a stable sort by a key in descending order, and
    `Array.prototype.slice` paging. */
module Ranking {

  /** Every element's key is at least the key of every later element. */
  predicate SortedDesc<T>(s: seq<T>, key: T -> real) {
    forall i, j :: 0 <= i < j < |s| ==> key(s[i]) >= key(s[j])
  }

  /** The elements of `s` whose key is `v`, in their order in `s`. */
  function WithKey<T>(s: seq<T>, key: T -> real, v: real): seq<T> {
    if s == [] then []
    else (if key(s[0]) == v then [s[0]] else []) + WithKey(s[1..], key, v)
  }

  /** Places `x` before the first element whose key is not larger than its own, so
      that `x` precedes the elements of equal key already in `s`. */
  function InsertDesc<T>(x: T, s: seq<T>, key: T -> real): (r: seq<T>)
    ensures multiset(r) == multiset(s) + multiset{x}
    ensures |r| == |s| + 1
  {
    if s == [] || key(s[0]) <= key(x) then [x] + s
    else
      assert s == [s[0]] + s[1..];
      [s[0]] + InsertDesc(x, s[1..], key)
  }

  /** A stable sort by descending key: the order `Array.prototype.sort` produces with
      a comparator `(a, b) => key(b) - key(a)`. */
  function SortDesc<T>(s: seq<T>, key: T -> real): (r: seq<T>)
    ensures multiset(r) == multiset(s)
    ensures |r| == |s|
  {
    if s == [] then []
    else
      assert s == [s[0]] + s[1..];
      InsertDesc(s[0], SortDesc(s[1..], key), key)
  }

  lemma {:induction false} InsertDescSorted<T>(x: T, s: seq<T>, key: T -> real)
    requires SortedDesc(s, key)
    ensures SortedDesc(InsertDesc(x, s, key), key)
    ensures InsertDesc(x, s, key)[0] == x || (s != [] && InsertDesc(x, s, key)[0] == s[0])
  {
    var r := InsertDesc(x, s, key);
    if s != [] && key(s[0]) > key(x) {
      var t := s[1..];
      var r' := InsertDesc(x, t, key);
      assert SortedDesc(t, key);
      InsertDescSorted(x, t, key);
      assert key(r'[0]) <= key(s[0]) by {
        if t != [] {
          assert t[0] == s[1];
        }
      }
      assert r == [s[0]] + r';
      forall i, j | 0 <= i < j < |r| ensures key(r[i]) >= key(r[j]) {
        if i == 0 {
          assert key(r'[0]) >= key(r'[j - 1]);
        } else {
          assert r[i] == r'[i - 1] && r[j] == r'[j - 1];
        }
      }
    } else {
      forall i, j | 0 <= i < j < |r| ensures key(r[i]) >= key(r[j]) {
        if i == 0 {
          assert key(s[0]) >= key(s[j - 1]);
        } else {
          assert r[i] == s[i - 1] && r[j] == s[j - 1];
        }
      }
    }
  }

  lemma {:induction false} InsertDescWithKey<T>(x: T, s: seq<T>, key: T -> real, v: real)
    ensures WithKey(InsertDesc(x, s, key), key, v) == (if key(x) == v then [x] else []) + WithKey(s, key, v)
  {
    if s != [] && key(s[0]) > key(x) {
      var t := s[1..];
      var r := InsertDesc(x, t, key);
      InsertDescWithKey(x, t, key, v);
      assert InsertDesc(x, s, key) == [s[0]] + r;
      assert ([s[0]] + r)[1..] == r;
      assert WithKey([s[0]] + r, key, v) == (if key(s[0]) == v then [s[0]] else []) + WithKey(r, key, v);
      assert WithKey(s, key, v) == (if key(s[0]) == v then [s[0]] else []) + WithKey(t, key, v);
    } else {
      assert ([x] + s)[1..] == s;
    }
  }

  /** `SortDesc` orders by descending key, is a permutation of its input, and is
      stable: for every key value, the elements carrying it keep their input order. */
  lemma {:induction false} SortDescSpec<T>(s: seq<T>, key: T -> real)
    ensures SortedDesc(SortDesc(s, key), key)
    ensures multiset(SortDesc(s, key)) == multiset(s)
    ensures forall v :: WithKey(SortDesc(s, key), key, v) == WithKey(s, key, v)
  {
    if s != [] {
      SortDescSpec(s[1..], key);
      InsertDescSorted(s[0], SortDesc(s[1..], key), key);
      forall v ensures WithKey(SortDesc(s, key), key, v) == WithKey(s, key, v) {
        InsertDescWithKey(s[0], SortDesc(s[1..], key), key, v);
      }
    }
  }

  /** When the keys of `u` strictly decrease, `u` is the only ordering of its
      elements that is sorted by descending key. */
  lemma {:induction false} SortedDescUnique<T>(t: seq<T>, u: seq<T>, key: T -> real)
    requires SortedDesc(t, key) && multiset(t) == multiset(u)
    requires forall i, j :: 0 <= i < j < |u| ==> key(u[i]) > key(u[j])
    ensures t == u
  {
    if u != [] {
      SortedSameHead(t, u, key);
      MultisetTail(t, u);
      SortedDescUnique(t[1..], u[1..], key);
      assert t == [t[0]] + t[1..];
      assert u == [u[0]] + u[1..];
    } else {
      assert |t| == |multiset(t)|;
    }
  }

  lemma SortedSameHead<T>(t: seq<T>, u: seq<T>, key: T -> real)
    requires SortedDesc(t, key) && multiset(t) == multiset(u) && u != []
    requires forall i, j :: 0 <= i < j < |u| ==> key(u[i]) > key(u[j])
    ensures t != [] && t[0] == u[0]
  {
    assert u[0] in multiset(t);
    var i :| 0 <= i < |t| && t[i] == u[0];
    assert t[0] in multiset(u);
    var j :| 0 <= j < |u| && u[j] == t[0];
    assert key(u[0]) <= key(t[0]);
  }

  lemma MultisetTail<T>(t: seq<T>, u: seq<T>)
    requires multiset(t) == multiset(u) && t != [] && u != [] && t[0] == u[0]
    ensures multiset(t[1..]) == multiset(u[1..])
  {
    assert t == [t[0]] + t[1..];
    assert u == [u[0]] + u[1..];
    assert multiset(t) == multiset{t[0]} + multiset(t[1..]);
    assert multiset(u) == multiset{u[0]} + multiset(u[1..]);
    assert multiset(t[1..]) == multiset(t) - multiset{t[0]};
    assert multiset(u[1..]) == multiset(u) - multiset{u[0]};
  }

  /** `list.slice(offset, offset + limit)`: indices past the end are clamped. */
  function Page<T>(s: seq<T>, offset: nat, limit: nat): (r: seq<T>)
    ensures |r| <= limit
    ensures forall k :: 0 <= k < |r| ==> offset + k < |s| && r[k] == s[offset + k]
    ensures |r| == if offset >= |s| then 0 else if offset + limit <= |s| then limit else |s| - offset
  {
    var lo := if offset <= |s| then offset else |s|;
    var hi := if offset + limit <= |s| then offset + limit else |s|;
    s[lo..hi]
  }

  /** Two consecutive pages together are the page of twice the size: paging with the
      same candidates yields disjoint slices in ranked order. */
  lemma ConsecutivePages<T>(s: seq<T>, offset: nat, limit: nat)
    ensures Page(s, offset, limit) + Page(s, offset + limit, limit) == Page(s, offset, 2 * limit)
  {
  }
}
