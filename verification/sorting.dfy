/** Python's `sorted(xs, key=...)` for an integer key: a stable insertion sort, and the
    two facts that pin its result down: it is ordered by the key, and for every key
    value it keeps the elements carrying that value in their input order. */
module Sorting {

  ghost predicate SortedBy<T>(s: seq<T>, key: T -> int) {
    forall i, j :: 0 <= i < j < |s| ==> key(s[i]) <= key(s[j])
  }

  /** The elements of `s` whose key is `k`, in their order in `s`. */
  function WithKey<T>(s: seq<T>, key: T -> int, k: int): (r: seq<T>)
    ensures |r| <= |s|
  {
    if s == [] then []
    else (if key(s[0]) == k then [s[0]] else []) + WithKey(s[1..], key, k)
  }

  /** Places `x` in front of the first element whose key is not below its own. */
  function Insert<T>(x: T, s: seq<T>, key: T -> int): (r: seq<T>)
    requires SortedBy(s, key)
    ensures |r| == |s| + 1
    ensures r[0] == x || (s != [] && r[0] == s[0])
    ensures multiset(r) == multiset(s) + multiset{x}
    ensures SortedBy(r, key)
  {
    if s == [] then [x]
    else if key(x) <= key(s[0]) then [x] + s
    else
      var t := Insert(x, s[1..], key);
      assert s == [s[0]] + s[1..];
      [s[0]] + t
  }

  lemma {:induction false} InsertWithKey<T>(x: T, s: seq<T>, key: T -> int, k: int)
    requires SortedBy(s, key)
    ensures WithKey(Insert(x, s, key), key, k) == (if key(x) == k then [x] else []) + WithKey(s, key, k)
  {
    if s == [] {
    } else if key(x) <= key(s[0]) {
      assert ([x] + s)[1..] == s;
    } else {
      var t := Insert(x, s[1..], key);
      assert ([s[0]] + t)[1..] == t;
      InsertWithKey(x, s[1..], key, k);
    }
  }

  /** The stable sort. */
  function SortByKey<T>(s: seq<T>, key: T -> int): (r: seq<T>)
    ensures |r| == |s|
    ensures multiset(r) == multiset(s)
    ensures SortedBy(r, key)
  {
    if s == [] then []
    else
      var t := SortByKey(s[1..], key);
      assert s == [s[0]] + s[1..];
      Insert(s[0], t, key)
  }

  /** The sort is stable: for every key value, the elements carrying it keep their
      input order. */
  lemma {:induction false} SortByKeyStable<T>(s: seq<T>, key: T -> int, k: int)
    ensures WithKey(SortByKey(s, key), key, k) == WithKey(s, key, k)
  {
    if s != [] {
      var t := SortByKey(s[1..], key);
      SortByKeyStable(s[1..], key, k);
      InsertWithKey(s[0], t, key, k);
    }
  }

  /** Sortedness and the per-key order determine a sequence: any two sequences that
      are ordered by the key and agree on every per-key subsequence are equal. */
  lemma {:induction false} SortedUnique<T>(a: seq<T>, b: seq<T>, key: T -> int)
    requires SortedBy(a, key) && SortedBy(b, key)
    requires forall k :: WithKey(a, key, k) == WithKey(b, key, k)
    ensures a == b
    decreases |a| + |b|
  {
    if a == [] || b == [] {
      if a != [] {
        var w := WithKey(b, key, key(a[0]));
      } else if b != [] {
        var w := WithKey(a, key, key(b[0]));
      }
    } else {
      var ka, kb := key(a[0]), key(b[0]);
      if ka < kb {
        assert WithKey(a, key, ka) != [];
        NoSmallerKey(b, key, ka);
      } else if kb < ka {
        assert WithKey(b, key, kb) != [];
        NoSmallerKey(a, key, kb);
      } else {
        assert WithKey(a, key, ka)[0] == a[0];
        assert WithKey(b, key, ka)[0] == b[0];
        forall k
          ensures WithKey(a[1..], key, k) == WithKey(b[1..], key, k)
        {
          var wa, wb := WithKey(a, key, k), WithKey(b, key, k);
          assert wa == wb;
          if k == ka {
            assert wa == [a[0]] + WithKey(a[1..], key, k);
            assert wb == [b[0]] + WithKey(b[1..], key, k);
            assert WithKey(a[1..], key, k) == wa[1..];
            assert WithKey(b[1..], key, k) == wb[1..];
          } else {
            assert wa == WithKey(a[1..], key, k);
            assert wb == WithKey(b[1..], key, k);
          }
        }
        SortedUnique(a[1..], b[1..], key);
        assert a == [a[0]] + a[1..] && b == [b[0]] + b[1..];
      }
    }
  }

  /** In a sequence sorted by the key, no element carries a key below the first one. */
  lemma {:induction false} NoSmallerKey<T>(s: seq<T>, key: T -> int, k: int)
    requires SortedBy(s, key)
    requires s != [] && k < key(s[0])
    ensures WithKey(s, key, k) == []
    decreases |s|
  {
    if |s| > 1 {
      NoSmallerKey(s[1..], key, k);
    }
  }

  /** Sorting an already sorted sequence changes nothing. */
  lemma SortSorted<T>(s: seq<T>, key: T -> int)
    requires SortedBy(s, key)
    ensures SortByKey(s, key) == s
  {
    forall k ensures WithKey(SortByKey(s, key), key, k) == WithKey(s, key, k) {
      SortByKeyStable(s, key, k);
    }
    SortedUnique(SortByKey(s, key), s, key);
  }
}

/** The optional value of a Python `None`-able field. */
module Optional {
  datatype Option<T> = None | Some(value: T) {
    function GetOr(default: T): T {
      if Some? then value else default
    }
  }
}
