/**
 * A stable sort by a real-valued key, ascending or descending: the behaviour
 * the move orderer gets from the list library's sort with a comparator that
 * compares two keys. Elements with equal keys keep their relative order.
 */
module StableSort {

  /** `a` goes strictly before `b`: a larger key when descending, a smaller one when ascending. */
  predicate Before<T>(key: T -> real, desc: bool, a: T, b: T) {
    if desc then key(a) > key(b) else key(a) < key(b)
  }

  /** No element goes strictly before an element that precedes it. */
  predicate Ordered<T>(s: seq<T>, key: T -> real, desc: bool) {
    forall i, j :: 0 <= i < j < |s| ==> !Before(key, desc, s[j], s[i])
  }

  /** The elements of `s` whose key is `k`, in their order in `s`. */
  function Filter<T>(s: seq<T>, key: T -> real, k: real): seq<T> {
    if |s| == 0 then []
    else (if key(s[0]) == k then [s[0]] else []) + Filter(s[1..], key, k)
  }

  /** Places `x` in front of the first element that does not go strictly before it. */
  function Insert<T>(x: T, s: seq<T>, key: T -> real, desc: bool): seq<T> {
    if |s| == 0 then [x]
    else if Before(key, desc, s[0], x) then [s[0]] + Insert(x, s[1..], key, desc)
    else [x] + s
  }

  /** Insertion sort: sort the tail, then insert the head in front of its equals. */
  function Sort<T>(s: seq<T>, key: T -> real, desc: bool): seq<T> {
    if |s| == 0 then [] else Insert(s[0], Sort(s[1..], key, desc), key, desc)
  }

  lemma {:induction false} InsertPermutes<T>(x: T, s: seq<T>, key: T -> real, desc: bool)
    ensures multiset(Insert(x, s, key, desc)) == multiset(s) + multiset{x}
  {
    if |s| > 0 && Before(key, desc, s[0], x) {
      InsertPermutes(x, s[1..], key, desc);
      assert s == [s[0]] + s[1..];
    }
  }

  lemma {:induction false} InsertOrdered<T>(x: T, s: seq<T>, key: T -> real, desc: bool)
    requires Ordered(s, key, desc)
    ensures Ordered(Insert(x, s, key, desc), key, desc)
  {
    if |s| > 0 && Before(key, desc, s[0], x) {
      var t := s[1..];
      InsertOrdered(x, t, key, desc);
      InsertPermutes(x, t, key, desc);
      var r := Insert(x, t, key, desc);
      forall j | 0 <= j < |r| ensures !Before(key, desc, r[j], s[0]) {
        assert r[j] in multiset(r);
        assert r[j] == x || r[j] in multiset(t);
        if r[j] != x {
          var m :| 0 <= m < |t| && t[m] == r[j];
          assert s[m + 1] == r[j];
        }
      }
    }
  }

  lemma {:induction false} InsertFilter<T>(x: T, s: seq<T>, key: T -> real, desc: bool, k: real)
    ensures Filter(Insert(x, s, key, desc), key, k) == (if key(x) == k then [x] else []) + Filter(s, key, k)
  {
    if |s| == 0 {
      assert Filter([x], key, k) == (if key(x) == k then [x] else []) + Filter([], key, k);
    } else if Before(key, desc, s[0], x) {
      InsertFilter(x, s[1..], key, desc, k);
      var r := [s[0]] + Insert(x, s[1..], key, desc);
      assert r[1..] == Insert(x, s[1..], key, desc);
      assert Filter(r, key, k) == (if key(s[0]) == k then [s[0]] else []) + Filter(r[1..], key, k);
      assert Filter(s, key, k) == (if key(s[0]) == k then [s[0]] else []) + Filter(s[1..], key, k);
      assert key(s[0]) != key(x);
      if key(x) == k {
        assert Filter(r, key, k) == [x] + Filter(s[1..], key, k);
      } else {
        assert Filter(r, key, k) == (if key(s[0]) == k then [s[0]] else []) + Filter(s[1..], key, k);
      }
    } else {
      var r := [x] + s;
      assert r[1..] == s;
    }
  }

  /** The sort only rearranges: nothing is dropped or duplicated. */
  lemma {:induction false} SortPermutes<T>(s: seq<T>, key: T -> real, desc: bool)
    ensures multiset(Sort(s, key, desc)) == multiset(s)
  {
    if |s| > 0 {
      SortPermutes(s[1..], key, desc);
      InsertPermutes(s[0], Sort(s[1..], key, desc), key, desc);
      assert s == [s[0]] + s[1..];
    }
  }

  /** The result is ordered by key. */
  lemma {:induction false} SortOrdered<T>(s: seq<T>, key: T -> real, desc: bool)
    ensures Ordered(Sort(s, key, desc), key, desc)
  {
    if |s| > 0 {
      SortOrdered(s[1..], key, desc);
      InsertOrdered(s[0], Sort(s[1..], key, desc), key, desc);
    }
  }

  /** Stability: for every key, the elements with that key appear in their original order. */
  lemma {:induction false} SortStable<T>(s: seq<T>, key: T -> real, desc: bool, k: real)
    ensures Filter(Sort(s, key, desc), key, k) == Filter(s, key, k)
  {
    if |s| > 0 {
      SortStable(s[1..], key, desc, k);
      InsertFilter(s[0], Sort(s[1..], key, desc), key, desc, k);
    }
  }
}
