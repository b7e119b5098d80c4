/**
 * Python's `list.sort(key=...)`: a stable sort by an integer key. It is
 * specified here by an insertion sort whose contract states the three facts
 * the menu logic relies on: the result is ordered by key, it is a permutation
 * of the input, and elements with equal keys keep their relative order.
 */
module StableSort {

  /** `s` is in non-decreasing order of `key`. */
  ghost predicate SortedBy<T>(s: seq<T>, key: T -> int) {
    forall i, j :: 0 <= i < j < |s| ==> key(s[i]) <= key(s[j])
  }

  /** No element occurs twice in `s`. */
  ghost predicate NoDup<T>(s: seq<T>) {
    forall i, j :: 0 <= i < j < |s| ==> s[i] != s[j]
  }

  /** The elements of `s` whose key is `k`, in their order in `s`. */
  ghost function WithKey<T>(s: seq<T>, key: T -> int, k: int): seq<T> {
    if s == [] then []
    else WithKey(s[..|s| - 1], key, k) + (if key(s[|s| - 1]) == k then [s[|s| - 1]] else [])
  }

  lemma {:induction false} WithKeyConcat<T>(a: seq<T>, b: seq<T>, key: T -> int, k: int)
    ensures WithKey(a + b, key, k) == WithKey(a, key, k) + WithKey(b, key, k)
    decreases |b|
  {
    if b == [] {
      assert a + b == a;
    } else {
      var b' := b[..|b| - 1];
      assert (a + b)[..|a + b| - 1] == a + b';
      WithKeyConcat(a, b', key, k);
    }
  }

  lemma NoDupInit<T>(s: seq<T>)
    requires NoDup(s) && s != []
    ensures NoDup(s[..|s| - 1]) && s[|s| - 1] !in s[..|s| - 1]
  {
    var init := s[..|s| - 1];
    forall i | 0 <= i < |init| ensures init[i] != s[|s| - 1] {
      assert init[i] == s[i];
    }
  }

  /**
   * Inserts `x` behind every element whose key is at most `key(x)`, scanning
   * from the end; inserting behind equal keys is what makes the sort stable.
   */
  function InsertByKey<T>(s: seq<T>, x: T, key: T -> int): (r: seq<T>)
    ensures multiset(r) == multiset(s) + multiset{x}
  {
    if s == [] || key(s[|s| - 1]) <= key(x) then s + [x]
    else
      assert s == s[..|s| - 1] + [s[|s| - 1]];
      InsertByKey(s[..|s| - 1], x, key) + [s[|s| - 1]]
  }

  lemma {:induction false} InsertKeepsSorted<T>(s: seq<T>, x: T, key: T -> int)
    requires SortedBy(s, key)
    ensures SortedBy(InsertByKey(s, x, key), key)
    decreases |s|
  {
    if s == [] || key(s[|s| - 1]) <= key(x) {
    } else {
      var last, init := s[|s| - 1], s[..|s| - 1];
      var t := InsertByKey(init, x, key);
      InsertKeepsSorted(init, x, key);
      forall i | 0 <= i < |t| ensures key(t[i]) <= key(last) {
        assert t[i] in multiset(t);
        if t[i] != x {
          assert t[i] in multiset(init);
          var j :| 0 <= j < |init| && init[j] == t[i];
          assert s[j] == init[j];
        }
      }
    }
  }

  lemma {:induction false} InsertKeepsNoDup<T>(s: seq<T>, x: T, key: T -> int)
    requires NoDup(s) && x !in s
    ensures NoDup(InsertByKey(s, x, key))
    decreases |s|
  {
    if s == [] || key(s[|s| - 1]) <= key(x) {
    } else {
      var last, init := s[|s| - 1], s[..|s| - 1];
      NoDupInit(s);
      InsertKeepsNoDup(init, x, key);
      var t := InsertByKey(init, x, key);
      assert last !in multiset(t);
    }
  }

  lemma {:induction false} InsertWithKey<T>(s: seq<T>, x: T, key: T -> int, k: int)
    ensures WithKey(InsertByKey(s, x, key), key, k) == WithKey(s, key, k) + (if key(x) == k then [x] else [])
    decreases |s|
  {
    if s == [] || key(s[|s| - 1]) <= key(x) {
      assert (s + [x])[..|s + [x]| - 1] == s;
    } else {
      var last, init := s[|s| - 1], s[..|s| - 1];
      var t := InsertByKey(init, x, key);
      assert InsertByKey(s, x, key) == t + [last];
      assert s == init + [last];
      InsertWithKey(init, x, key, k);
      WithKeyConcat(t, [last], key, k);
      WithKeyConcat(init, [last], key, k);
      WithKeyOne(last, key, k);
      // `last` sorts after `x`, so at most one of them carries the key `k`.
      AppendCommutes(WithKey(init, key, k), if key(x) == k then [x] else [], WithKey([last], key, k));
    }
  }

  lemma WithKeyOne<T>(y: T, key: T -> int, k: int)
    ensures WithKey([y], key, k) == if key(y) == k then [y] else []
  {
    assert [y][..0] == [];
  }

  lemma AppendCommutes<T>(a: seq<T>, b: seq<T>, c: seq<T>)
    requires b == [] || c == []
    ensures a + b + c == a + c + b
  {
  }

  /** Insertion sort by `key`, inserting each element behind the equal keys already placed. */
  function SortByKey<T>(s: seq<T>, key: T -> int): seq<T> {
    if s == [] then [] else InsertByKey(SortByKey(s[..|s| - 1], key), s[|s| - 1], key)
  }

  /**
   * `SortByKey` is a stable sort: ordered by key, a permutation of the input,
   * and for every key value the elements carrying it keep their input order.
   */
  lemma {:induction false} SortByKeyIsStableSort<T>(s: seq<T>, key: T -> int)
    ensures SortedBy(SortByKey(s, key), key)
    ensures multiset(SortByKey(s, key)) == multiset(s)
    ensures NoDup(s) ==> NoDup(SortByKey(s, key))
    ensures forall k :: WithKey(SortByKey(s, key), key, k) == WithKey(s, key, k)
    decreases |s|
  {
    if s != [] {
      var init := s[..|s| - 1];
      var x := s[|s| - 1];
      assert s == init + [x];
      SortByKeyIsStableSort(init, key);
      var t := SortByKey(init, key);
      InsertKeepsSorted(t, x, key);
      if NoDup(s) {
        NoDupInit(s);
        assert x !in multiset(t);
        InsertKeepsNoDup(t, x, key);
      }
      forall k ensures WithKey(InsertByKey(t, x, key), key, k) == WithKey(s, key, k) {
        InsertWithKey(t, x, key, k);
        WithKeyConcat(init, [x], key, k);
        assert [x][..0] == [];
      }
    }
  }
}
