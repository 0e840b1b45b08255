/** Python's `sorted(xs, key = key, reverse = True)`: a stable sort into
    descending key order, where elements with equal keys keep their input
    order. Modelled as insertion sort on sequences. */
module Sorting {

  ghost predicate SortedDesc<T>(s: seq<T>, key: T -> real)
  {
    forall i, j :: 0 <= i < j < |s| ==> key(s[i]) >= key(s[j])
  }

  /** The elements of `s` whose key is `v`, in order. Stability means this
      subsequence is the same before and after sorting, for every `v`. */
  function WithKey<T>(s: seq<T>, key: T -> real, v: real): seq<T>
    decreases |s|
  {
    if |s| == 0 then []
    else if key(s[|s| - 1]) == v then WithKey(s[..|s| - 1], key, v) + [s[|s| - 1]]
    else WithKey(s[..|s| - 1], key, v)
  }

  /** Places `x` after every element whose key is at least its own. */
  function Insert<T>(x: T, s: seq<T>, key: T -> real): (r: seq<T>)
    ensures multiset(r) == multiset(s) + multiset{x}
    decreases |s|
  {
    if |s| == 0 then [x]
    else if key(x) > key(s[0]) then [x] + s
    else
      assert s == [s[0]] + s[1..];
      [s[0]] + Insert(x, s[1..], key)
  }

  function SortDesc<T>(s: seq<T>, key: T -> real): (r: seq<T>)
    ensures multiset(r) == multiset(s)
    decreases |s|
  {
    if |s| == 0 then []
    else
      assert s == s[..|s| - 1] + [s[|s| - 1]];
      Insert(s[|s| - 1], SortDesc(s[..|s| - 1], key), key)
  }

  lemma {:induction false} InsertSorted<T>(x: T, s: seq<T>, key: T -> real)
    requires SortedDesc(s, key)
    ensures SortedDesc(Insert(x, s, key), key)
    decreases |s|
  {
    if |s| > 0 && key(x) <= key(s[0]) {
      var r := Insert(x, s, key);
      var t := Insert(x, s[1..], key);
      InsertSorted(x, s[1..], key);
      assert r == [s[0]] + t;
      forall j | 0 < j < |r|
        ensures key(r[0]) >= key(r[j])
      {
        assert r[j] in multiset(t);
        assert r[j] in multiset(s[1..]) + multiset{x};
        if r[j] != x {
          var k :| 0 <= k < |s[1..]| && s[1..][k] == r[j];
          assert s[1..][k] == s[k + 1];
        }
      }
    }
  }

  lemma {:induction false} InsertWithKey<T>(x: T, s: seq<T>, key: T -> real, v: real)
    requires SortedDesc(s, key)
    ensures WithKey(Insert(x, s, key), key, v) == WithKey(s, key, v) + (if key(x) == v then [x] else [])
    decreases |s|
  {
    var r := Insert(x, s, key);
    if |s| == 0 {
      assert r == [x];
      assert r[..0] == [];
    } else if key(x) > key(s[0]) {
      assert r == [x] + s;
      WithKeyBelow(x, s, key, v);
    } else {
      var t := Insert(x, s[1..], key);
      assert r == [s[0]] + t;
      assert SortedDesc(s[1..], key) by {
        forall i, j | 0 <= i < j < |s[1..]|
          ensures key(s[1..][i]) >= key(s[1..][j])
        {
          assert s[1..][i] == s[i + 1] && s[1..][j] == s[j + 1];
        }
      }
      var tail := if key(x) == v then [x] else [];
      calc {
        WithKey(r, key, v);
        { WithKeyCons(s[0], t, key, v); }
        (if key(s[0]) == v then [s[0]] else []) + WithKey(t, key, v);
        { InsertWithKey(x, s[1..], key, v); }
        (if key(s[0]) == v then [s[0]] else []) + (WithKey(s[1..], key, v) + tail);
        ((if key(s[0]) == v then [s[0]] else []) + WithKey(s[1..], key, v)) + tail;
        { WithKeyCons(s[0], s[1..], key, v); assert s == [s[0]] + s[1..]; }
        WithKey(s, key, v) + tail;
      }
    }
  }

  /** Filtering commutes with putting an element in front. */
  lemma {:induction false} WithKeyCons<T>(x: T, s: seq<T>, key: T -> real, v: real)
    ensures WithKey([x] + s, key, v) == (if key(x) == v then [x] else []) + WithKey(s, key, v)
    decreases |s|
  {
    var xs := [x] + s;
    if |s| == 0 {
      assert xs[..0] == [];
    } else {
      assert xs[..|xs| - 1] == [x] + s[..|s| - 1];
      assert xs[|xs| - 1] == s[|s| - 1];
      WithKeyCons(x, s[..|s| - 1], key, v);
    }
  }

  /** An element with a key above every key of a descending sequence adds
      nothing to the filter at any key of that sequence. */
  lemma WithKeyBelow<T>(x: T, s: seq<T>, key: T -> real, v: real)
    requires SortedDesc(s, key)
    requires |s| > 0 && key(x) > key(s[0])
    ensures WithKey([x] + s, key, v) == WithKey(s, key, v) + (if key(x) == v then [x] else [])
  {
    WithKeyCons(x, s, key, v);
    if key(x) == v {
      WithKeyNone(s, key, v);
    }
  }

  lemma {:induction false} WithKeyNone<T>(s: seq<T>, key: T -> real, v: real)
    requires forall i :: 0 <= i < |s| ==> key(s[i]) < v
    ensures WithKey(s, key, v) == []
    decreases |s|
  {
    if |s| > 0 {
      WithKeyNone(s[..|s| - 1], key, v);
    }
  }

  /** The sort is a permutation into descending key order that keeps the
      relative order of equal keys (stability). */
  lemma {:induction false} SortDescCorrect<T>(s: seq<T>, key: T -> real)
    ensures SortedDesc(SortDesc(s, key), key)
    ensures forall v :: WithKey(SortDesc(s, key), key, v) == WithKey(s, key, v)
    decreases |s|
  {
    if |s| > 0 {
      var init := s[..|s| - 1];
      SortDescCorrect(init, key);
      InsertSorted(s[|s| - 1], SortDesc(init, key), key);
      forall v ensures WithKey(SortDesc(s, key), key, v) == WithKey(s, key, v) {
        InsertWithKey(s[|s| - 1], SortDesc(init, key), key, v);
      }
    }
  }

  /** Sum of `f` over the elements, independent of their order. */
  function KeySum<T>(s: seq<T>, f: T -> real): real
    decreases |s|
  {
    if |s| == 0 then 0.0 else f(s[0]) + KeySum(s[1..], f)
  }

  lemma {:induction false} KeySumAppend<T>(s: seq<T>, x: T, f: T -> real)
    ensures KeySum(s + [x], f) == KeySum(s, f) + f(x)
    decreases |s|
  {
    if |s| == 0 {
      assert s + [x] == [x];
    } else {
      assert (s + [x])[1..] == s[1..] + [x];
      KeySumAppend(s[1..], x, f);
    }
  }

  lemma {:induction false} KeySumInsert<T>(x: T, s: seq<T>, key: T -> real, f: T -> real)
    ensures KeySum(Insert(x, s, key), f) == f(x) + KeySum(s, f)
    decreases |s|
  {
    if |s| > 0 && key(x) <= key(s[0]) {
      KeySumInsert(x, s[1..], key, f);
      assert ([s[0]] + Insert(x, s[1..], key))[1..] == Insert(x, s[1..], key);
    } else if |s| > 0 {
      assert ([x] + s)[1..] == s;
    }
  }

  /** Sorting does not change a sum over the elements. */
  lemma {:induction false} KeySumSort<T>(s: seq<T>, key: T -> real, f: T -> real)
    ensures KeySum(SortDesc(s, key), f) == KeySum(s, f)
    decreases |s|
  {
    if |s| > 0 {
      var init, x := s[..|s| - 1], s[|s| - 1];
      calc {
        KeySum(SortDesc(s, key), f);
        KeySum(Insert(x, SortDesc(init, key), key), f);
        { KeySumInsert(x, SortDesc(init, key), key, f); }
        f(x) + KeySum(SortDesc(init, key), f);
        { KeySumSort(init, key, f); }
        f(x) + KeySum(init, f);
        { KeySumAppend(init, x, f); assert s == init + [x]; }
        KeySum(s, f);
      }
    }
  }

  ghost predicate DistinctBy<T, K>(s: seq<T>, name: T -> K)
  {
    forall i, j :: 0 <= i < j < |s| ==> name(s[i]) != name(s[j])
  }

  lemma {:induction false} InsertDistinct<T, K>(x: T, s: seq<T>, key: T -> real, name: T -> K)
    requires DistinctBy(s, name)
    requires forall i :: 0 <= i < |s| ==> name(s[i]) != name(x)
    ensures DistinctBy(Insert(x, s, key), name)
    decreases |s|
  {
    if |s| > 0 && key(x) <= key(s[0]) {
      var t := Insert(x, s[1..], key);
      InsertDistinct(x, s[1..], key, name);
      var r := [s[0]] + t;
      forall j | 0 < j < |r|
        ensures name(r[0]) != name(r[j])
      {
        assert r[j] == t[j - 1];
        assert t[j - 1] in multiset(s[1..]) + multiset{x};
        if t[j - 1] != x {
          var k :| 0 <= k < |s[1..]| && s[1..][k] == t[j - 1];
          assert s[1..][k] == s[k + 1];
        }
      }
      forall i, j | 0 < i < j < |r|
        ensures name(r[i]) != name(r[j])
      {
        assert r[i] == t[i - 1] && r[j] == t[j - 1];
      }
    }
  }

  /** Sorting keeps elements with pairwise different names apart. */
  lemma {:induction false} SortDistinct<T, K>(s: seq<T>, key: T -> real, name: T -> K)
    requires DistinctBy(s, name)
    ensures DistinctBy(SortDesc(s, key), name)
    decreases |s|
  {
    if |s| > 0 {
      var init := s[..|s| - 1];
      var x := s[|s| - 1];
      SortDistinct(init, key, name);
      var t := SortDesc(init, key);
      forall i | 0 <= i < |t|
        ensures name(t[i]) != name(x)
      {
        assert t[i] in multiset(init);
        var k :| 0 <= k < |init| && init[k] == t[i];
        assert init[k] == s[k];
      }
      InsertDistinct(x, t, key, name);
    }
  }
}
