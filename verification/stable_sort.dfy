/**
 * `Array.prototype.sort` with a comparator of the form `(x, y) => key(y) - key(x)`:
 * an in-place, stable sort into non-increasing key order. Since ECMAScript 2019 the
 * sort is required to be stable, so elements with equal keys keep their input order.
 */
module StableSort {

  /** The list is non-increasing in `key`. */
  predicate SortedDesc<T>(s: seq<T>, key: T -> int) {
    forall i, j | 0 <= i < j < |s| :: key(s[i]) >= key(s[j])
  }

  /** The elements of `s` whose key is `v`, in their order in `s`. */
  function WithKey<T>(s: seq<T>, key: T -> int, v: int): seq<T> {
    if s == [] then []
    else WithKey(s[..|s| - 1], key, v) + (if key(s[|s| - 1]) == v then [s[|s| - 1]] else [])
  }

  /**
   * `t` is a stable rearrangement of `s`: for every key value, the elements with that key
   * occur in `t` in exactly the order they occur in `s`.
   */
  ghost predicate SameByKey<T>(s: seq<T>, t: seq<T>, key: T -> int) {
    forall v :: WithKey(s, key, v) == WithKey(t, key, v)
  }

  lemma {:induction false} WithKeyMembers<T>(s: seq<T>, key: T -> int, v: int)
    ensures forall x :: x in WithKey(s, key, v) <==> x in s && key(x) == v
    decreases |s|
  {
    if s != [] {
      WithKeyMembers(s[..|s| - 1], key, v);
      assert s == s[..|s| - 1] + [s[|s| - 1]];
    }
  }

  lemma WithKeyMember<T>(s: seq<T>, key: T -> int, v: int, x: T)
    requires x in WithKey(s, key, v)
    ensures x in s && key(x) == v
  {
    WithKeyMembers(s, key, v);
  }

  lemma {:induction false} WithKeyConcat<T>(s: seq<T>, t: seq<T>, key: T -> int, v: int)
    ensures WithKey(s + t, key, v) == WithKey(s, key, v) + WithKey(t, key, v)
    decreases |t|
  {
    if t == [] {
      assert s + t == s;
    } else {
      var t' := t[..|t| - 1];
      assert (s + t)[..|s + t| - 1] == s + t';
      WithKeyConcat(s, t', key, v);
    }
  }

  /** Swapping two neighbours with different keys keeps every key's subsequence. */
  lemma SwapKeepsOrderPerKey<T>(s: seq<T>, j: int, key: T -> int)
    requires 0 < j < |s| && key(s[j - 1]) != key(s[j])
    ensures SameByKey(s[j - 1 := s[j]][j := s[j - 1]], s, key)
  {
    var x, y := s[j - 1], s[j];
    var pre, post := s[..j - 1], s[j + 1..];
    var t := s[j - 1 := y][j := x];
    assert s == pre + [x, y] + post;
    assert t == pre + [y, x] + post;
    forall v ensures WithKey(t, key, v) == WithKey(s, key, v) {
      WithKeyConcat(pre + [x, y], post, key, v);
      WithKeyConcat(pre, [x, y], key, v);
      WithKeyConcat(pre + [y, x], post, key, v);
      WithKeyConcat(pre, [y, x], key, v);
      assert [x, y][..1] == [x] && [y, x][..1] == [y];
      assert WithKey([x, y], key, v) == WithKey([y, x], key, v);
    }
  }

  /** An element of `s` occurs in `s` as often as in the part of `s` that shares its key. */
  lemma {:induction false} CountWithinKey<T>(s: seq<T>, key: T -> int, x: T)
    ensures multiset(s)[x] == multiset(WithKey(s, key, key(x)))[x]
    decreases |s|
  {
    if s != [] {
      var init, last := s[..|s| - 1], s[|s| - 1];
      CountWithinKey(init, key, x);
      assert s == init + [last];
    }
  }

  /** A stable rearrangement is a permutation. */
  lemma SameByKeyIsPermutation<T>(s: seq<T>, t: seq<T>, key: T -> int)
    requires SameByKey(s, t, key)
    ensures multiset(s) == multiset(t)
  {
    forall x ensures multiset(s)[x] == multiset(t)[x] {
      CountWithinKey(s, key, x);
      CountWithinKey(t, key, x);
    }
  }

  /** The empty list is the only stable rearrangement of the empty list. */
  lemma EmptyOnlyMatchesEmpty<T>(s: seq<T>, t: seq<T>, key: T -> int)
    requires SameByKey(s, t, key) && s == []
    ensures t == []
  {
    if t != [] {
      // t's first element would belong to t's part with its key, which s leaves empty.
      WithKeyMembers(t, key, key(t[0]));
      assert false;
    }
  }

  /** Two sorted stable rearrangements of each other end with the same element. */
  lemma SortedEndsAlike<T>(s: seq<T>, t: seq<T>, key: T -> int)
    requires SortedDesc(s, key) && SortedDesc(t, key)
    requires SameByKey(s, t, key) && s != [] && t != []
    ensures s[|s| - 1] == t[|t| - 1]
  {
    var sLast, tLast := s[|s| - 1], t[|t| - 1];
    WithKeyMembers(s, key, key(tLast));
    WithKeyMembers(t, key, key(sLast));
    assert tLast in WithKey(t, key, key(tLast));
    assert sLast in WithKey(s, key, key(sLast));
    var vs :| 0 <= vs < |s| && s[vs] == tLast;
    var vt :| 0 <= vt < |t| && t[vt] == sLast;
    var w := key(sLast);
    assert key(tLast) == w;
    var sw, tw := WithKey(s, key, w), WithKey(t, key, w);
    assert sw == tw;
    assert sw == WithKey(s[..|s| - 1], key, w) + [sLast];
    assert tw == WithKey(t[..|t| - 1], key, w) + [tLast];
    assert sLast == sw[|sw| - 1];
  }

  /** Removing a common last element keeps two lists stable rearrangements of each other. */
  lemma DropLastKeepsSameByKey<T>(s: seq<T>, t: seq<T>, key: T -> int)
    requires SameByKey(s, t, key) && s != [] && t != [] && s[|s| - 1] == t[|t| - 1]
    ensures SameByKey(s[..|s| - 1], t[..|t| - 1], key)
  {
    var x, sInit, tInit := s[|s| - 1], s[..|s| - 1], t[..|t| - 1];
    forall v ensures WithKey(sInit, key, v) == WithKey(tInit, key, v) {
      var ws, wt := WithKey(sInit, key, v), WithKey(tInit, key, v);
      var tail := if key(x) == v then [x] else [];
      assert WithKey(s, key, v) == ws + tail;
      assert WithKey(t, key, v) == wt + tail;
      assert ws == (ws + tail)[..|ws|];
      assert wt == (wt + tail)[..|wt|];
    }
  }

  /** Two elements with one key keep their relative order in the part of the list with that key. */
  lemma {:induction false} WithKeyKeepsOrder<T>(s: seq<T>, key: T -> int, k: int, l: int)
    requires 0 <= k < l < |s| && key(s[k]) == key(s[l])
    ensures exists i, j :: 0 <= i < j < |WithKey(s, key, key(s[l]))| &&
              WithKey(s, key, key(s[l]))[i] == s[k] && WithKey(s, key, key(s[l]))[j] == s[l]
    decreases |s|
  {
    var v, init := key(s[l]), s[..|s| - 1];
    var w0 := WithKey(init, key, v);
    assert WithKey(s, key, v) == w0 + (if key(s[|s| - 1]) == v then [s[|s| - 1]] else []);
    if l == |s| - 1 {
      WithKeyMembers(init, key, v);
      assert s[k] == init[k];
      var i :| 0 <= i < |w0| && w0[i] == s[k];
      assert WithKey(s, key, v)[i] == s[k] && WithKey(s, key, v)[|w0|] == s[l];
    } else {
      assert init[k] == s[k] && init[l] == s[l];
      WithKeyKeepsOrder(init, key, k, l);
      var i, j :| 0 <= i < j < |w0| && w0[i] == s[k] && w0[j] == s[l];
      assert WithKey(s, key, v)[i] == s[k] && WithKey(s, key, v)[j] == s[l];
    }
  }

  /** Two entries of the part of t with one key occur in t in the same relative order. */
  lemma {:induction false} WithKeyOrderInList<T>(t: seq<T>, key: T -> int, v: int, i: int, j: int)
    requires 0 <= i < j < |WithKey(t, key, v)|
    ensures exists p, q :: 0 <= p < q < |t| && t[p] == WithKey(t, key, v)[i] && t[q] == WithKey(t, key, v)[j]
    decreases |t|
  {
    var init, last := t[..|t| - 1], t[|t| - 1];
    var w0, w := WithKey(init, key, v), WithKey(t, key, v);
    assert w == w0 + (if key(last) == v then [last] else []);
    if j < |w0| {
      assert |init| < |t|;
      WithKeyOrderInList(init, key, v, i, j);
      var p, q :| 0 <= p < q < |init| && init[p] == w0[i] && init[q] == w0[j];
      assert t[p] == w[i] && t[q] == w[j];
    } else {
      assert w[j] == last && w[i] == w0[i];
      WithKeyMember(init, key, v, w0[i]);
      var p :| 0 <= p < |init| && init[p] == w0[i];
      assert t[p] == w[i] && t[|t| - 1] == w[j];
    }
  }

  /**
   * A stable rearrangement keeps equal-key elements in order: two positions k < l of s
   * with one key hold elements that occur in t in the same order.
   */
  lemma SameByKeyKeepsOrder<T>(s: seq<T>, t: seq<T>, key: T -> int, k: int, l: int)
    requires SameByKey(s, t, key) && 0 <= k < l < |s| && key(s[k]) == key(s[l])
    ensures exists p, q :: 0 <= p < q < |t| && t[p] == s[k] && t[q] == s[l]
  {
    var v := key(s[l]);
    WithKeyKeepsOrder(s, key, k, l);
    var i, j :| 0 <= i < j < |WithKey(s, key, v)| && WithKey(s, key, v)[i] == s[k] && WithKey(s, key, v)[j] == s[l];
    assert WithKey(s, key, v) == WithKey(t, key, v);
    WithKeyOrderInList(t, key, v, i, j);
  }

  /**
   * The sort's contract determines its result: two sorted stable rearrangements of the
   * same list are equal.
   */
  lemma {:induction false} StableSortIsUnique<T>(s: seq<T>, t: seq<T>, key: T -> int)
    requires SortedDesc(s, key) && SortedDesc(t, key)
    requires SameByKey(s, t, key)
    ensures s == t
    decreases |s|
  {
    if s == [] {
      EmptyOnlyMatchesEmpty(s, t, key);
    } else if t == [] {
      EmptyOnlyMatchesEmpty(t, s, key);
    } else {
      SortedEndsAlike(s, t, key);
      DropLastKeepsSameByKey(s, t, key);
      var sInit, tInit := s[..|s| - 1], t[..|t| - 1];
      assert SortedDesc(sInit, key) && SortedDesc(tInit, key);
      StableSortIsUnique(sInit, tInit, key);
      assert s == sInit + [s[|s| - 1]] && t == tInit + [t[|t| - 1]];
    }
  }

  /**
   * Sorts `a` in place, stably, into non-increasing key order (an insertion sort that
   * only exchanges neighbours whose keys are strictly out of order).
   */
  method SortDescending<T>(a: array<T>, key: T -> int)
    modifies a
    ensures SortedDesc(a[..], key)
    ensures SameByKey(a[..], old(a[..]), key)
  {
    if a.Length == 0 {
      return;
    }
    var i := 1;
    while i < a.Length
      invariant 1 <= i <= a.Length
      invariant forall k, l | 0 <= k < l < i :: key(a[k]) >= key(a[l])
      invariant SameByKey(a[..], old(a[..]), key)
    {
      ghost var before := a[..];
      InsertAt(a, i, key);
      SameByKeyTrans(a[..], before, old(a[..]), key);
      i := i + 1;
    }
  }

  /** Stable rearrangement is transitive. */
  lemma SameByKeyTrans<T>(s: seq<T>, t: seq<T>, u: seq<T>, key: T -> int)
    requires SameByKey(s, t, key) && SameByKey(t, u, key)
    ensures SameByKey(s, u, key)
  {
  }

  /**
   * One pass of the insertion sort: moves a[i] left past every element of the sorted
   * prefix a[..i] whose key is strictly smaller, so that a[..i + 1] is sorted.
   */
  method InsertAt<T>(a: array<T>, i: int, key: T -> int)
    requires 0 < i < a.Length
    requires forall k, l | 0 <= k < l < i :: key(a[k]) >= key(a[l])
    modifies a
    ensures forall k, l | 0 <= k < l <= i :: key(a[k]) >= key(a[l])
    ensures SameByKey(a[..], old(a[..]), key)
    ensures a[i + 1..] == old(a[i + 1..])
  {
    var j := i;
    while 0 < j && key(a[j - 1]) < key(a[j])
      invariant 0 <= j <= i
      invariant forall k, l | 0 <= k < l <= i && k != j && l != j :: key(a[k]) >= key(a[l])
      invariant forall l | j < l <= i :: key(a[j]) > key(a[l])
      invariant SameByKey(a[..], old(a[..]), key)
      invariant a[i + 1..] == old(a[i + 1..])
    {
      ghost var before := a[..];
      SwapDown(a, j, key);
      SameByKeyTrans(a[..], before, old(a[..]), key);
      j := j - 1;
    }
  }

  /** Exchanges a[j - 1] and a[j], whose keys differ. */
  method SwapDown<T>(a: array<T>, j: int, key: T -> int)
    requires 0 < j < a.Length && key(a[j - 1]) != key(a[j])
    modifies a
    ensures a[..] == old(a[..])[j - 1 := old(a[j])][j := old(a[j - 1])]
    ensures SameByKey(a[..], old(a[..]), key)
  {
    a[j - 1], a[j] := a[j], a[j - 1];
    SwapKeepsOrderPerKey(old(a[..]), j, key);
  }
}
