/**
 * Go's `sort.SliceStable` with a "greater key first" comparison, as the engine
 * uses it to rank its mating pool. The library's algorithm is not part of the
 * repository; this module gives the result it promises: an insertion sort on
 * values, descending by `key`, that never reorders elements of equal key.
 */
module StableSorts {

  /** Descending by key. */
  ghost predicate Descending<T>(s: seq<T>, key: T -> real)
  {
    forall i, j :: 0 <= i < j < |s| ==> key(s[i]) >= key(s[j])
  }

  /** `x` goes in front of the first element whose key is not greater than its own. */
  function Insert<T>(x: T, t: seq<T>, key: T -> real): (r: seq<T>)
    ensures |r| == |t| + 1
  {
    if |t| == 0 || key(t[0]) <= key(x) then [x] + t
    else [t[0]] + Insert(x, t[1..], key)
  }

  /** The stable descending sort: each element is inserted ahead of the later equal ones. */
  function SortDesc<T>(s: seq<T>, key: T -> real): (r: seq<T>)
    ensures |r| == |s|
  {
    if |s| == 0 then [] else Insert(s[0], SortDesc(s[1..], key), key)
  }

  /** The elements of `s` whose key is `v`, in their order in `s`. */
  function Filter<T>(s: seq<T>, key: T -> real, v: real): (r: seq<T>)
    ensures |r| <= |s|
  {
    if |s| == 0 then []
    else (if key(s[0]) == v then [s[0]] else []) + Filter(s[1..], key, v)
  }

  lemma {:induction false} InsertPermutes<T>(x: T, t: seq<T>, key: T -> real)
    ensures multiset(Insert(x, t, key)) == multiset{x} + multiset(t)
    decreases |t|
  {
    if |t| == 0 || key(t[0]) <= key(x) {
    } else {
      InsertPermutes(x, t[1..], key);
      assert t == [t[0]] + t[1..];
    }
  }

  lemma {:induction false} InsertDescending<T>(x: T, t: seq<T>, key: T -> real)
    requires Descending(t, key)
    ensures Descending(Insert(x, t, key), key)
    decreases |t|
  {
    var r := Insert(x, t, key);
    if |t| == 0 || key(t[0]) <= key(x) {
      forall i, j | 0 <= i < j < |r| ensures key(r[i]) >= key(r[j]) {
        if i > 0 {
          assert r[i] == t[i - 1] && r[j] == t[j - 1];
        } else {
          assert r[j] == t[j - 1];
        }
      }
    } else {
      var u := Insert(x, t[1..], key);
      InsertDescending(x, t[1..], key);
      InsertPermutes(x, t[1..], key);
      forall j | 0 <= j < |u| ensures key(t[0]) >= key(u[j]) {
        assert u[j] in multiset(u);
        if u[j] != x {
          assert u[j] in multiset(t[1..]);
          var k :| 0 <= k < |t[1..]| && t[1..][k] == u[j];
          assert t[k + 1] == u[j];
        }
      }
      forall i, j | 0 <= i < j < |r| ensures key(r[i]) >= key(r[j]) {
        assert r[j] == u[j - 1];
        if i > 0 {
          assert r[i] == u[i - 1];
        }
      }
    }
  }

  lemma {:induction false} InsertFilter<T>(x: T, t: seq<T>, key: T -> real, v: real)
    ensures Filter(Insert(x, t, key), key, v) ==
            (if key(x) == v then [x] else []) + Filter(t, key, v)
    decreases |t|
  {
    if |t| == 0 || key(t[0]) <= key(x) {
      assert ([x] + t)[1..] == t;
    } else {
      InsertFilter(x, t[1..], key, v);
      assert ([t[0]] + Insert(x, t[1..], key))[1..] == Insert(x, t[1..], key);
    }
  }

  /** The sort returns the input's elements, each as often as the input holds it. */
  lemma {:induction false} SortPermutes<T>(s: seq<T>, key: T -> real)
    ensures multiset(SortDesc(s, key)) == multiset(s)
    decreases |s|
  {
    if |s| > 0 {
      SortPermutes(s[1..], key);
      InsertPermutes(s[0], SortDesc(s[1..], key), key);
      assert s == [s[0]] + s[1..];
    }
  }

  /** The sort orders by key, greatest first. */
  lemma {:induction false} SortDescends<T>(s: seq<T>, key: T -> real)
    ensures Descending(SortDesc(s, key), key)
    decreases |s|
  {
    if |s| > 0 {
      SortDescends(s[1..], key);
      InsertDescending(s[0], SortDesc(s[1..], key), key);
    }
  }

  /** Stability: for every key value, the elements with that key keep their order. */
  lemma {:induction false} SortStable<T>(s: seq<T>, key: T -> real, v: real)
    ensures Filter(SortDesc(s, key), key, v) == Filter(s, key, v)
    decreases |s|
  {
    if |s| > 0 {
      SortStable(s[1..], key, v);
      InsertFilter(s[0], SortDesc(s[1..], key), key, v);
    }
  }

  /** The first element of the sorted sequence has the greatest key of the input. */
  lemma SortHeadIsMax<T>(s: seq<T>, key: T -> real, x: T)
    requires x in s
    ensures |SortDesc(s, key)| > 0 && key(x) <= key(SortDesc(s, key)[0])
  {
    var r := SortDesc(s, key);
    SortPermutes(s, key);
    SortDescends(s, key);
    assert x in multiset(r);
    var k :| 0 <= k < |r| && r[k] == x;
    if k > 0 {
      assert key(r[0]) >= key(r[k]);
    }
  }
}
