/**
 * `list.sort(key=key, reverse=True)`: a stable sort into non-increasing key
 * order. Elements whose keys are equal keep their relative order (Python's
 * `reverse=True` does not reverse ties). Every stable sort yields the same
 * list, so the specification is given by insertion.
 */
module StableSort {

  predicate SortedDesc<T>(s: seq<T>, key: T -> int) {
    forall i, j :: 0 <= i < j < |s| ==> key(s[i]) >= key(s[j])
  }

  /** The elements of `s` whose key is `k`, in their order in `s`. */
  function WithKey<T>(s: seq<T>, key: T -> int, k: int): seq<T> {
    if |s| == 0 then []
    else (if key(s[0]) == k then [s[0]] else []) + WithKey(s[1..], key, k)
  }

  /** `x` placed after every element of `t` whose key is at least its own. */
  function Insert<T>(t: seq<T>, x: T, key: T -> int): seq<T> {
    if |t| == 0 || key(t[|t| - 1]) >= key(x) then t + [x]
    else Insert(t[..|t| - 1], x, key) + [t[|t| - 1]]
  }

  /** The stable descending sort of `s`: each element in turn inserted into the sorted prefix. */
  function SortDesc<T>(s: seq<T>, key: T -> int): seq<T> {
    if |s| == 0 then [] else Insert(SortDesc(s[..|s| - 1], key), s[|s| - 1], key)
  }

  lemma {:induction false} WithKeyAppend<T>(a: seq<T>, b: seq<T>, key: T -> int, k: int)
    ensures WithKey(a + b, key, k) == WithKey(a, key, k) + WithKey(b, key, k)
  {
    if |a| > 0 {
      assert (a + b)[1..] == a[1..] + b;
      WithKeyAppend(a[1..], b, key, k);
    } else {
      assert a + b == b;
    }
  }

  lemma {:induction false} InsertPermutes<T>(t: seq<T>, x: T, key: T -> int)
    ensures multiset(Insert(t, x, key)) == multiset(t) + multiset{x}
  {
    if |t| > 0 && key(t[|t| - 1]) < key(x) {
      InsertPermutes(t[..|t| - 1], x, key);
      assert t == t[..|t| - 1] + [t[|t| - 1]];
    }
  }

  /** Inserting an element whose key is at least `b` into elements whose keys are at least `b` keeps that bound. */
  lemma {:induction false} InsertAtLeast<T>(t: seq<T>, x: T, key: T -> int, b: int)
    requires forall i :: 0 <= i < |t| ==> key(t[i]) >= b
    requires key(x) >= b
    ensures forall i :: 0 <= i < |Insert(t, x, key)| ==> key(Insert(t, x, key)[i]) >= b
  {
    if |t| > 0 && key(t[|t| - 1]) < key(x) {
      InsertAtLeast(t[..|t| - 1], x, key, b);
    }
  }

  lemma {:induction false} InsertSorted<T>(t: seq<T>, x: T, key: T -> int)
    requires SortedDesc(t, key)
    ensures SortedDesc(Insert(t, x, key), key)
  {
    if |t| > 0 && key(t[|t| - 1]) < key(x) {
      var init, last := t[..|t| - 1], t[|t| - 1];
      InsertSorted(init, x, key);
      InsertAtLeast(init, x, key, key(last));
      var r := Insert(init, x, key);
      assert Insert(t, x, key) == r + [last];
      forall i, j | 0 <= i < j < |r + [last]| ensures key((r + [last])[i]) >= key((r + [last])[j]) {
        if j == |r| {
          assert (r + [last])[i] == r[i];
        } else {
          assert (r + [last])[i] == r[i] && (r + [last])[j] == r[j];
        }
      }
    }
  }

  /** Inserting `x` adds it behind the elements of its own key and disturbs no other key's order. */
  lemma {:induction false} InsertWithKey<T>(t: seq<T>, x: T, key: T -> int, k: int)
    ensures WithKey(Insert(t, x, key), key, k) == WithKey(t, key, k) + WithKey([x], key, k)
  {
    if |t| == 0 || key(t[|t| - 1]) >= key(x) {
      WithKeyAppend(t, [x], key, k);
    } else {
      var init, last := t[..|t| - 1], t[|t| - 1];
      assert t == init + [last];
      InsertWithKey(init, x, key, k);
      WithKeyAppend(Insert(init, x, key), [last], key, k);
      WithKeyAppend(init, [last], key, k);
      // key(last) < key(x): at most one of the two singletons has key k
      assert WithKey([last], key, k) == [] || WithKey([x], key, k) == [];
    }
  }

  /**
   * What the sort promises: a permutation of its input, in non-increasing key
   * order, and for every key the elements with that key in their input order.
   */
  lemma {:induction false} SortDescCorrect<T>(s: seq<T>, key: T -> int)
    ensures multiset(SortDesc(s, key)) == multiset(s)
    ensures SortedDesc(SortDesc(s, key), key)
    ensures forall k :: WithKey(SortDesc(s, key), key, k) == WithKey(s, key, k)
  {
    if |s| > 0 {
      var init, last := s[..|s| - 1], s[|s| - 1];
      assert s == init + [last];
      SortDescCorrect(init, key);
      InsertPermutes(SortDesc(init, key), last, key);
      InsertSorted(SortDesc(init, key), last, key);
      forall k ensures WithKey(SortDesc(s, key), key, k) == WithKey(s, key, k) {
        InsertWithKey(SortDesc(init, key), last, key, k);
        WithKeyAppend(init, [last], key, k);
      }
    }
  }

  /** `s` lists its elements in strictly increasing `rank`. */
  predicate IncreasingBy<T>(s: seq<T>, rank: T -> int) {
    forall i, j :: 0 <= i < j < |s| ==> rank(s[i]) < rank(s[j])
  }

  lemma IncreasingTail<T>(s: seq<T>, rank: T -> int)
    requires |s| > 0 && IncreasingBy(s, rank)
    ensures IncreasingBy(s[1..], rank)
  {
    forall i, j | 0 <= i < j < |s| - 1 ensures rank(s[1..][i]) < rank(s[1..][j]) {
      assert s[1..][i] == s[i + 1] && s[1..][j] == s[j + 1];
    }
  }

  lemma {:induction false} WithKeyMembers<T>(s: seq<T>, key: T -> int, k: int)
    ensures forall y :: y in WithKey(s, key, k) ==> y in s && key(y) == k
    ensures forall y :: y in s && key(y) == k ==> y in WithKey(s, key, k)
  {
    if |s| > 0 {
      WithKeyMembers(s[1..], key, k);
      assert s == [s[0]] + s[1..];
    }
  }

  /** Among the elements with key `k`, the order of `s` is the order of `WithKey(s, key, k)`. */
  lemma {:induction false} TiesFollowFilter<T>(s: seq<T>, key: T -> int, k: int, rank: T -> int)
    requires IncreasingBy(WithKey(s, key, k), rank)
    ensures forall i, j :: 0 <= i < j < |s| && key(s[i]) == k && key(s[j]) == k ==> rank(s[i]) < rank(s[j])
  {
    if |s| > 0 {
      var f := WithKey(s[1..], key, k);
      assert IncreasingBy(f, rank) by {
        if key(s[0]) == k {
          assert WithKey(s, key, k)[1..] == f;
          IncreasingTail(WithKey(s, key, k), rank);
        } else {
          assert WithKey(s, key, k) == f;
        }
      }
      TiesFollowFilter(s[1..], key, k, rank);
      if key(s[0]) == k {
        WithKeyMembers(s[1..], key, k);
        forall j | 0 < j < |s| && key(s[j]) == k ensures rank(s[0]) < rank(s[j]) {
          assert s[j] == s[1..][j - 1];
          assert s[j] in f;
          var m :| 0 <= m < |f| && f[m] == s[j];
          assert WithKey(s, key, k) == [s[0]] + f;
          assert WithKey(s, key, k)[0] == s[0] && WithKey(s, key, k)[m + 1] == s[j];
        }
      }
      forall i, j | 0 < i < j < |s| && key(s[i]) == k && key(s[j]) == k ensures rank(s[i]) < rank(s[j]) {
        assert s[i] == s[1..][i - 1] && s[j] == s[1..][j - 1];
      }
    }
  }

  lemma {:induction false} WithKeyIncreasing<T>(s: seq<T>, key: T -> int, k: int, rank: T -> int)
    requires IncreasingBy(s, rank)
    ensures IncreasingBy(WithKey(s, key, k), rank)
  {
    if |s| > 0 {
      IncreasingTail(s, rank);
      WithKeyIncreasing(s[1..], key, k, rank);
      WithKeyMembers(s[1..], key, k);
      var f := WithKey(s[1..], key, k);
      if key(s[0]) == k {
        var g := [s[0]] + f;
        forall i, j | 0 <= i < j < |g| ensures rank(g[i]) < rank(g[j]) {
          if i == 0 {
            assert g[j] == f[j - 1] && f[j - 1] in f;
            assert g[j] in s[1..];
            var m' :| 0 <= m' < |s[1..]| && s[1..][m'] == g[j];
            var m := m' + 1;
            assert s[m] == g[j];
            assert rank(s[0]) < rank(s[m]);
          } else {
            assert g[i] == f[i - 1] && g[j] == f[j - 1];
          }
        }
      }
    }
  }

  /**
   * Stability: if the input lists its elements in increasing `rank`, then in
   * the sorted output elements with equal keys still appear in increasing `rank`.
   */
  lemma SortDescKeepsTies<T>(s: seq<T>, key: T -> int, rank: T -> int)
    requires IncreasingBy(s, rank)
    ensures forall i, j :: 0 <= i < j < |SortDesc(s, key)| && key(SortDesc(s, key)[i]) == key(SortDesc(s, key)[j])
              ==> rank(SortDesc(s, key)[i]) < rank(SortDesc(s, key)[j])
  {
    var r := SortDesc(s, key);
    SortDescCorrect(s, key);
    forall i, j | 0 <= i < j < |r| && key(r[i]) == key(r[j]) ensures rank(r[i]) < rank(r[j]) {
      var k := key(r[i]);
      WithKeyIncreasing(s, key, k, rank);
      TiesFollowFilter(r, key, k, rank);
    }
  }

  lemma InsertPastSmaller<T>(t: seq<T>, x: T, key: T -> int, j: nat)
    requires 0 < j <= |t| && key(t[j - 1]) < key(x)
    ensures Insert(t[..j], x, key) + t[j..] == Insert(t[..j - 1], x, key) + t[j - 1..]
  {
    assert t[..j][..j - 1] == t[..j - 1];
    assert t[j - 1..] == [t[j - 1]] + t[j..];
  }

  lemma InsertStops<T>(t: seq<T>, x: T, key: T -> int, j: nat)
    requires j <= |t| && (j == 0 || key(t[j - 1]) >= key(x))
    ensures Insert(t[..j], x, key) + t[j..] == t[..j] + [x] + t[j..]
  {
  }

  lemma SortDescPrefix<T>(s: seq<T>, key: T -> int, i: nat)
    requires i < |s|
    ensures SortDesc(s[..i + 1], key) == Insert(SortDesc(s[..i], key), s[i], key)
  {
    assert s[..i + 1][..i] == s[..i];
  }

  /** One insertion step: `a[i]` moves left past every element of `a[..i]` with a smaller key. */
  method InsertInPlace<T>(a: array<T>, i: nat, key: T -> int)
    requires i < a.Length
    modifies a
    ensures a[..i + 1] == Insert(old(a[..i]), old(a[i]), key)
    ensures forall m :: i < m < a.Length ==> a[m] == old(a[m])
  {
    ghost var t := a[..i];
    var x := a[i];
    var j := i;
    assert t[..j] == t && t[j..] == [];
    while j > 0 && key(a[j - 1]) < key(a[j])
      invariant 0 <= j <= i
      invariant forall m :: 0 <= m < j ==> a[m] == t[m]
      invariant a[j] == x
      invariant forall m :: j < m <= i ==> a[m] == t[m - 1]
      invariant forall m :: i < m < a.Length ==> a[m] == old(a[m])
      invariant Insert(t, x, key) == Insert(t[..j], x, key) + t[j..]
    {
      InsertPastSmaller(t, x, key, j);
      a[j - 1], a[j] := a[j], a[j - 1];
      j := j - 1;
    }
    InsertStops(t, x, key, j);
    assert a[..i + 1] == t[..j] + [x] + t[j..];
  }

  /** The in-place sort: insertion sort, moving each element left past smaller keys. */
  method SortInPlace<T>(a: array<T>, key: T -> int)
    modifies a
    ensures a[..] == SortDesc(old(a[..]), key)
  {
    ghost var s := a[..];
    var i := 0;
    while i < a.Length
      invariant 0 <= i <= a.Length
      invariant a[..i] == SortDesc(s[..i], key)
      invariant forall m :: i <= m < a.Length ==> a[m] == s[m]
    {
      InsertInPlace(a, i, key);
      SortDescPrefix(s, key, i);
      i := i + 1;
    }
    assert a[..] == a[..a.Length] && s == s[..a.Length];
  }
}
