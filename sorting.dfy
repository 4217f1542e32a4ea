/** Python's `list.sort(key=...)`, as a stable insertion sort on a real-valued key. */
module Sorting {

  ghost predicate SortedBy<T>(s: seq<T>, key: T -> real) {
    forall i, j :: 0 <= i < j < |s| ==> key(s[i]) <= key(s[j])
  }

  /** Inserts `x` after every element whose key is not larger than its own. */
  function Insert<T>(x: T, s: seq<T>, key: T -> real): (r: seq<T>)
    requires SortedBy(s, key)
    ensures SortedBy(r, key)
    ensures multiset(r) == multiset(s) + multiset{x}
    ensures |r| == |s| + 1
    ensures s != [] ==> key(r[0]) == if key(x) < key(s[0]) then key(x) else key(s[0])
  {
    if s == [] then [x]
    else if key(x) < key(s[0]) then [x] + s
    else
      var rest := Insert(x, s[1..], key);
      assert s == [s[0]] + s[1..];
      assert key(s[0]) <= key(rest[0]);
      [s[0]] + rest
  }

  /** Sorts `s` by `key`, keeping equal keys in input order. */
  function SortBy<T>(s: seq<T>, key: T -> real): (r: seq<T>)
    ensures SortedBy(r, key)
    ensures multiset(r) == multiset(s)
    ensures |r| == |s|
  {
    if s == [] then []
    else
      assert s == s[..|s| - 1] + [s[|s| - 1]];
      Insert(s[|s| - 1], SortBy(s[..|s| - 1], key), key)
  }
  /** The elements of `s` whose key is `k`, in the order of `s`. */
  ghost function WithKey<T>(s: seq<T>, key: T -> real, k: real): seq<T> {
    if s == [] then [] else (if key(s[0]) == k then [s[0]] else []) + WithKey(s[1..], key, k)
  }

  lemma {:induction false} WithKeyAppend<T>(s: seq<T>, t: seq<T>, key: T -> real, k: real)
    ensures WithKey(s + t, key, k) == WithKey(s, key, k) + WithKey(t, key, k)
  {
    if s == [] {
      assert s + t == t;
    } else {
      assert s + t == [s[0]] + (s[1..] + t) && s == [s[0]] + s[1..];
      WithKeyAppend(s[1..], t, key, k);
      WithKeyCons(s[0], s[1..] + t, key, k);
      WithKeyCons(s[0], s[1..], key, k);
    }
  }

  lemma {:induction false} WithKeyAbove<T>(s: seq<T>, key: T -> real, k: real)
    requires forall i | 0 <= i < |s| :: k < key(s[i])
    ensures WithKey(s, key, k) == []
  {
    if s != [] {
      WithKeyAbove(s[1..], key, k);
    }
  }

  lemma WithKeyCons<T>(x: T, s: seq<T>, key: T -> real, k: real)
    ensures WithKey([x] + s, key, k) == (if key(x) == k then [x] else []) + WithKey(s, key, k)
  {
    assert ([x] + s)[1..] == s;
  }

  /** `x` alone if its key is `k`, nothing otherwise. */
  ghost function Own<T>(x: T, key: T -> real, k: real): seq<T> {
    if key(x) == k then [x] else []
  }

  /** `x` goes in front when its key is below the head's. */
  lemma InsertFrontStable<T>(x: T, s: seq<T>, key: T -> real, k: real)
    requires SortedBy(s, key) && s != [] && key(x) < key(s[0])
    ensures WithKey([x] + s, key, k) == WithKey(s, key, k) + Own(x, key, k)
  {
    WithKeyCons(x, s, key, k);
    if key(x) == k {
      WithKeyAbove(s, key, k);
    }
  }

  /** Putting the same head on two lists keeps what follows from `WithKey`. */
  lemma ConsStable<T>(head: T, tail: seq<T>, rest: seq<T>, key: T -> real, k: real, extra: seq<T>)
    requires WithKey(rest, key, k) == WithKey(tail, key, k) + extra
    ensures WithKey([head] + rest, key, k) == WithKey([head] + tail, key, k) + extra
  {
    WithKeyCons(head, tail, key, k);
    WithKeyCons(head, rest, key, k);
  }

  /** `Insert` puts `x` after every element of the same key. */
  lemma {:induction false} InsertStable<T>(x: T, s: seq<T>, key: T -> real, k: real)
    requires SortedBy(s, key)
    ensures WithKey(Insert(x, s, key), key, k) == WithKey(s, key, k) + Own(x, key, k)
  {
    if s == [] {
      assert Insert(x, s, key) == [x] + [];
      WithKeyCons(x, [], key, k);
    } else if key(x) < key(s[0]) {
      assert Insert(x, s, key) == [x] + s;
      InsertFrontStable(x, s, key, k);
    } else {
      var head, tail := s[0], s[1..];
      assert s == [head] + tail;
      var rest := Insert(x, tail, key);
      assert Insert(x, s, key) == [head] + rest;
      InsertStable(x, tail, key, k);
      ConsStable(head, tail, rest, key, k, Own(x, key, k));
    }
  }

  /** The sort is stable: the elements of any one key keep their input order. */
  lemma {:induction false} SortByStable<T>(s: seq<T>, key: T -> real, k: real)
    ensures WithKey(SortBy(s, key), key, k) == WithKey(s, key, k)
  {
    if s != [] {
      var init, last := s[..|s| - 1], s[|s| - 1];
      assert s == init + [last];
      assert SortBy(s, key) == Insert(last, SortBy(init, key), key);
      SortByStable(init, key, k);
      InsertStable(last, SortBy(init, key), key, k);
      WithKeyAppend(init, [last], key, k);
      WithKeyCons(last, [], key, k);
      assert [last] + [] == [last];
    }
  }
}
