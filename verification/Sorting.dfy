/** The stable sort by an integer key that `list.sort(key=...)` performs. */
module Sorting {

  function Insert<T>(x: T, s: seq<T>, key: T -> int): seq<T>
  {
    if |s| == 0 || key(x) <= key(s[0]) then [x] + s else [s[0]] + Insert(x, s[1..], key)
  }

  function SortBy<T>(s: seq<T>, key: T -> int): seq<T>
  {
    if |s| == 0 then [] else Insert(s[0], SortBy(s[1..], key), key)
  }

  ghost predicate SortedBy<T>(s: seq<T>, key: T -> int)
  {
    forall i, j :: 0 <= i < j < |s| ==> key(s[i]) <= key(s[j])
  }

  lemma {:induction false} InsertPermutes<T>(x: T, s: seq<T>, key: T -> int)
    ensures multiset(Insert(x, s, key)) == multiset(s) + multiset{x}
  {
    if |s| == 0 || key(x) <= key(s[0]) {
    } else {
      assert s == [s[0]] + s[1..];
      InsertPermutes(x, s[1..], key);
    }
  }

  lemma {:induction false} InsertSorted<T>(x: T, s: seq<T>, key: T -> int)
    requires SortedBy(s, key)
    ensures SortedBy(Insert(x, s, key), key)
  {
    if |s| == 0 || key(x) <= key(s[0]) {
    } else {
      InsertSorted(x, s[1..], key);
      var r := Insert(x, s[1..], key);
      forall y | y in r
        ensures key(s[0]) <= key(y)
      {
        InsertPermutes(x, s[1..], key);
        assert y in multiset(r);
        assert y in multiset(s[1..]) || y == x;
      }
    }
  }

  /** Sorting keeps every element with its multiplicity and puts the keys in ascending order. */
  lemma {:induction false} SortByCorrect<T>(s: seq<T>, key: T -> int)
    ensures SortedBy(SortBy(s, key), key)
    ensures multiset(SortBy(s, key)) == multiset(s)
    ensures |SortBy(s, key)| == |s|
  {
    if |s| == 0 {
    } else {
      assert s == [s[0]] + s[1..];
      SortByCorrect(s[1..], key);
      InsertSorted(s[0], SortBy(s[1..], key), key);
      InsertPermutes(s[0], SortBy(s[1..], key), key);
      assert |multiset(SortBy(s, key))| == |multiset(s)|;
    }
  }

  ghost predicate UniqueKeys<T>(s: seq<T>, key: T -> int)
  {
    forall i, j :: 0 <= i < j < |s| ==> key(s[i]) != key(s[j])
  }

  lemma {:induction false} InsertUnique<T>(x: T, s: seq<T>, key: T -> int)
    requires UniqueKeys(s, key)
    requires forall i :: 0 <= i < |s| ==> key(s[i]) != key(x)
    ensures UniqueKeys(Insert(x, s, key), key)
  {
    if |s| == 0 || key(x) <= key(s[0]) {
    } else {
      InsertUnique(x, s[1..], key);
      InsertPermutes(x, s[1..], key);
      var r := Insert(x, s[1..], key);
      forall i | 0 <= i < |r|
        ensures key(r[i]) != key(s[0])
      {
        assert r[i] in multiset(r);
        assert r[i] == x || r[i] in s[1..];
      }
    }
  }

  lemma {:induction false} SortByUnique<T>(s: seq<T>, key: T -> int)
    requires UniqueKeys(s, key)
    ensures UniqueKeys(SortBy(s, key), key)
  {
    if |s| == 0 {
    } else {
      SortByUnique(s[1..], key);
      SortByCorrect(s[1..], key);
      var r := SortBy(s[1..], key);
      forall i | 0 <= i < |r|
        ensures key(r[i]) != key(s[0])
      {
        assert r[i] in multiset(r);
        assert r[i] in s[1..];
      }
      InsertUnique(s[0], r, key);
    }
  }

  /** The elements of `s` with one key, in the order they stand there. */
  ghost function WithKey<T>(s: seq<T>, key: T -> int, k: int): seq<T>
  {
    if s == [] then [] else (if key(s[0]) == k then [s[0]] else []) + WithKey(s[1..], key, k)
  }

  lemma {:induction false} InsertStable<T>(x: T, s: seq<T>, key: T -> int, k: int)
    requires SortedBy(s, key)
    ensures WithKey(Insert(x, s, key), key, k) == WithKey([x], key, k) + WithKey(s, key, k)
  {
    if |s| == 0 || key(x) <= key(s[0]) {
      assert ([x] + s)[1..] == s && [x][1..] == [];
    } else {
      InsertStable(x, s[1..], key, k);
      var r := Insert(x, s[1..], key);
      assert ([s[0]] + r)[1..] == r && [x][1..] == [];
      if key(x) == k {
        assert WithKey(Insert(x, s, key), key, k) == WithKey(r, key, k);
      }
    }
  }

  /** Elements with equal keys keep their order. */
  lemma {:induction false} SortByStable<T>(s: seq<T>, key: T -> int, k: int)
    ensures WithKey(SortBy(s, key), key, k) == WithKey(s, key, k)
  {
    if |s| == 0 {
    } else {
      SortByStable(s[1..], key, k);
      SortByCorrect(s[1..], key);
      InsertStable(s[0], SortBy(s[1..], key), key, k);
      assert [s[0]][1..] == [];
    }
  }
}
