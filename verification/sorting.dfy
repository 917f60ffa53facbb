/** Stable descending sort of keyed items, as Python's `list.sort(key=..., reverse=True)`
    and `sorted(..., reverse=True)` perform it: larger keys first, and items with equal keys
    in their original order. */
module Sorting {
  import opened Seqs

  /** Keys never increase from left to right. */
  predicate SortedDesc<T>(s: seq<(T, int)>) {
    forall i, j :: 0 <= i < j < |s| ==> s[i].1 >= s[j].1
  }

  /** The items whose key is `k`, in their order in `s`. Two sequences agree on `WithKey`
      for every `k` exactly when each is a reordering of the other that keeps the relative
      order of equal-keyed items. */
  function WithKey<T>(s: seq<(T, int)>, k: int): seq<(T, int)>
  {
    if |s| == 0 then []
    else (if s[0].1 == k then [s[0]] else []) + WithKey(s[1..], k)
  }

  /** `WithKey` holds exactly the items of `s` with key `k`. */
  lemma {:induction false} WithKeyMembers<T>(s: seq<(T, int)>, k: int)
    ensures forall i :: 0 <= i < |WithKey(s, k)| ==> WithKey(s, k)[i] in s && WithKey(s, k)[i].1 == k
    ensures forall i :: 0 <= i < |s| && s[i].1 == k ==> s[i] in WithKey(s, k)
    decreases |s|
  {
    if |s| > 0 {
      WithKeyMembers(s[1..], k);
      var w := WithKey(s, k);
      var w' := WithKey(s[1..], k);
      assert w == (if s[0].1 == k then [s[0]] else []) + w';
      forall i | 0 <= i < |s| && s[i].1 == k
        ensures s[i] in w
      {
        if i > 0 {
          assert s[i] == s[1..][i - 1];
        }
      }
    }
  }

  /** `r` is what a stable descending sort of `s` produces. */
  ghost predicate IsStableSortDesc<T>(s: seq<(T, int)>, r: seq<(T, int)>) {
    && SortedDesc(r)
    && multiset(r) == multiset(s)
    && forall k :: WithKey(r, k) == WithKey(s, k)
  }

  /** Puts `x` into a sorted sequence in front of every item whose key is not larger. */
  function Insert<T>(x: (T, int), s: seq<(T, int)>): (r: seq<(T, int)>)
    requires SortedDesc(s)
    ensures SortedDesc(r)
    ensures |r| == |s| + 1
    ensures forall i :: 0 <= i < |r| ==> r[i] == x || r[i] in s
    ensures multiset(r) == multiset(s) + multiset{x}
  {
    if |s| == 0 || s[0].1 <= x.1 then
      ConsSorted(x, s);
      [x] + s
    else
      var t := Insert(x, s[1..]);
      assert s == [s[0]] + s[1..];
      BelowHead(x, s, t);
      ConsSorted(s[0], t);
      [s[0]] + t
  }

  /** Items drawn from the tail of a sorted sequence, or smaller than its head, have keys no
      larger than its head. */
  lemma BelowHead<T>(x: (T, int), s: seq<(T, int)>, t: seq<(T, int)>)
    requires SortedDesc(s) && |s| > 0 && x.1 < s[0].1
    requires forall i :: 0 <= i < |t| ==> t[i] == x || t[i] in s[1..]
    ensures forall i :: 0 <= i < |t| ==> t[i].1 <= s[0].1
  {
    forall i | 0 <= i < |t|
      ensures t[i].1 <= s[0].1
    {
      if t[i] != x {
        var j :| 0 <= j < |s[1..]| && s[1..][j] == t[i];
        assert s[j + 1] == t[i];
      }
    }
  }

  /** An item no smaller than every key of a sorted sequence may go in front of it. */
  lemma ConsSorted<T>(y: (T, int), t: seq<(T, int)>)
    requires SortedDesc(t)
    requires forall i :: 0 <= i < |t| ==> t[i].1 <= y.1
    ensures SortedDesc([y] + t)
  {
    var r := [y] + t;
    forall i, j | 0 <= i < j < |r|
      ensures r[i].1 >= r[j].1
    {
      assert r[j] == t[j - 1];
      if i > 0 {
        assert r[i] == t[i - 1];
      }
    }
  }

  /** Insertion sort, taking items from the back so that earlier items end up in front of
      later ones with the same key. */
  function SortDesc<T>(s: seq<(T, int)>): (r: seq<(T, int)>)
    ensures SortedDesc(r)
    ensures |r| == |s|
    ensures multiset(r) == multiset(s)
  {
    if |s| == 0 then []
    else
      assert s == [s[0]] + s[1..];
      Insert(s[0], SortDesc(s[1..]))
  }

  /** Sorting a sequence without duplicates gives a sequence without duplicates. */
  lemma {:induction false} SortDescNoDup<T>(s: seq<(T, int)>)
    requires NoDup(s)
    ensures NoDup(SortDesc(s))
    decreases |s|
  {
    if |s| > 0 {
      SortDescNoDup(s[1..]);
      var t := SortDesc(s[1..]);
      assert s[0] !in s[1..];
      assert s[0] !in multiset(t);
      InsertNoDup(s[0], t);
    }
  }

  lemma {:induction false} InsertNoDup<T>(x: (T, int), s: seq<(T, int)>)
    requires SortedDesc(s) && NoDup(s) && x !in s
    ensures NoDup(Insert(x, s))
    decreases |s|
  {
    if |s| > 0 && s[0].1 > x.1 {
      InsertNoDup(x, s[1..]);
      var t := Insert(x, s[1..]);
      assert s[0] !in s[1..];
      assert s[0] !in t;
      assert Insert(x, s) == [s[0]] + t;
    }
  }

  lemma {:induction false} WithKeyAppend<T>(a: seq<(T, int)>, b: seq<(T, int)>, k: int)
    ensures WithKey(a + b, k) == WithKey(a, k) + WithKey(b, k)
    decreases |a|
  {
    if |a| == 0 {
      assert a + b == b;
    } else {
      WithKeyAppend(a[1..], b, k);
      WithKeyCons(a[0], a[1..] + b, k);
      WithKeyCons(a[0], a[1..], k);
      assert [a[0]] + (a[1..] + b) == a + b;
      assert [a[0]] + a[1..] == a;
    }
  }

  /** Inserting `x` adds it in front of the items that share its key. */
  lemma {:induction false} InsertWithKey<T>(x: (T, int), s: seq<(T, int)>, k: int)
    requires SortedDesc(s)
    ensures WithKey(Insert(x, s), k) == (if x.1 == k then [x] else []) + WithKey(s, k)
    decreases |s|
  {
    if |s| == 0 || s[0].1 <= x.1 {
      assert Insert(x, s) == [x] + s;
      WithKeyCons(x, s, k);
    } else {
      SortedTail(s);
      InsertWithKey(x, s[1..], k);
      InsertPast(x, s);
      InsertWithKeyStep(x, s[0], Insert(x, s[1..]), s[1..], k);
      assert [s[0]] + s[1..] == s;
    }
  }

  /** The tail of a sorted sequence is sorted. */
  lemma SortedTail<T>(s: seq<(T, int)>)
    requires |s| > 0 && SortedDesc(s)
    ensures SortedDesc(s[1..])
  {
    forall i, j | 0 <= i < j < |s[1..]|
      ensures s[1..][i].1 >= s[1..][j].1
    {
      assert s[1..][i] == s[i + 1] && s[1..][j] == s[j + 1];
    }
  }

  /** Inserting behind a larger first item. */
  lemma InsertPast<T>(x: (T, int), s: seq<(T, int)>)
    requires SortedDesc(s) && |s| > 0 && s[0].1 > x.1
    ensures SortedDesc(s[1..])
    ensures Insert(x, s) == [s[0]] + Insert(x, s[1..])
  {
    SortedTail(s);
  }

  /** The step of `InsertWithKey`: an item `y` with a key other than `x`'s goes in front. */
  lemma InsertWithKeyStep<T>(x: (T, int), y: (T, int), t: seq<(T, int)>, u: seq<(T, int)>, k: int)
    requires y.1 > x.1
    requires WithKey(t, k) == (if x.1 == k then [x] else []) + WithKey(u, k)
    ensures WithKey([y] + t, k) == (if x.1 == k then [x] else []) + WithKey([y] + u, k)
  {
    WithKeyCons(y, t, k);
    WithKeyCons(y, u, k);
  }

  /** `WithKey` of a sequence with one item in front. */
  lemma WithKeyCons<T>(y: (T, int), t: seq<(T, int)>, k: int)
    ensures WithKey([y] + t, k) == (if y.1 == k then [y] else []) + WithKey(t, k)
  {
    assert ([y] + t)[1..] == t;
  }

  /** The sort is stable: for every key, the items carrying it keep their relative order. */
  lemma {:induction false} SortDescStable<T>(s: seq<(T, int)>, k: int)
    ensures WithKey(SortDesc(s), k) == WithKey(s, k)
    decreases |s|
  {
    if |s| > 0 {
      SortDescStable(s[1..], k);
      InsertWithKey(s[0], SortDesc(s[1..]), k);
    }
  }

  /** `SortDesc` meets the stable-sort specification. */
  lemma SortDescIsStableSort<T>(s: seq<(T, int)>)
    ensures IsStableSortDesc(s, SortDesc(s))
  {
    forall k
      ensures WithKey(SortDesc(s), k) == WithKey(s, k)
    {
      SortDescStable(s, k);
    }
  }

  lemma HeadHasKey<T>(s: seq<(T, int)>)
    requires |s| > 0
    ensures WithKey(s, s[0].1) == [s[0]] + WithKey(s[1..], s[0].1)
  {
  }

  /** Only one sequence meets the stable-sort specification for a given input. */
  lemma {:induction false} StableSortUnique<T>(a: seq<(T, int)>, b: seq<(T, int)>)
    requires SortedDesc(a) && SortedDesc(b)
    requires forall k :: WithKey(a, k) == WithKey(b, k)
    ensures a == b
    decreases |a|
  {
    if |a| > 0 && |b| > 0 {
      var ka, kb := a[0].1, b[0].1;
      HeadHasKey(a);
      HeadHasKey(b);
      HeadKeyBound(a, b);
      HeadKeyBound(b, a);
      assert a[0] == WithKey(a, ka)[0] == WithKey(b, ka)[0] == b[0];
      forall k
        ensures WithKey(a[1..], k) == WithKey(b[1..], k)
      {
        var head := if a[0].1 == k then [a[0]] else [];
        assert WithKey(a, k) == head + WithKey(a[1..], k);
        assert WithKey(b, k) == head + WithKey(b[1..], k);
        assert WithKey(a, k) == WithKey(b, k);
        assert WithKey(a[1..], k) == WithKey(a, k)[|head|..];
        assert WithKey(b[1..], k) == WithKey(b, k)[|head|..];
      }
      StableSortUnique(a[1..], b[1..]);
      assert a == [a[0]] + a[1..];
      assert b == [b[0]] + b[1..];
    } else {
      if |b| == 0 {
        EmptyByKeys(a, b);
      } else {
        EmptyByKeys(b, a);
      }
    }
  }

  /** The first key of a sorted sequence is at least the first key of any sequence it
      agrees with on every key. */
  lemma HeadKeyBound<T>(a: seq<(T, int)>, b: seq<(T, int)>)
    requires SortedDesc(b) && |a| > 0 && |b| > 0
    requires forall k :: WithKey(a, k) == WithKey(b, k)
    ensures b[0].1 >= a[0].1
  {
    var ka := a[0].1;
    HeadHasKey(a);
    WithKeyMembers(b, ka);
    assert WithKey(b, ka) == WithKey(a, ka);
    var x := WithKey(b, ka)[0];
    assert x in b && x.1 == ka;
    var m :| 0 <= m < |b| && b[m] == x;
    assert m == 0 || b[0].1 >= b[m].1;
  }

  /** A sequence that agrees on every key with an empty one is empty. */
  lemma EmptyByKeys<T>(s: seq<(T, int)>, t: seq<(T, int)>)
    requires |t| == 0
    requires forall k :: WithKey(s, k) == WithKey(t, k)
    ensures |s| == 0
  {
    if |s| > 0 {
      HeadHasKey(s);
    }
  }

  /** Two items with the same key appear in `WithKey` in the order they have in `s`. */
  lemma {:induction false} WithKeyOrder<T>(s: seq<(T, int)>, k: int, i: nat, j: nat) returns (a: nat, b: nat)
    requires i < j < |s| && s[i].1 == k && s[j].1 == k
    ensures a < b < |WithKey(s, k)|
    ensures WithKey(s, k)[a] == s[i] && WithKey(s, k)[b] == s[j]
    decreases |s|
  {
    var w := WithKey(s, k);
    if i == 0 {
      assert s[j] in s[1..] by { assert s[1..][j - 1] == s[j]; }
      WithKeyMembers(s[1..], k);
      assert s[j] in WithKey(s[1..], k);
      var c :| 0 <= c < |WithKey(s[1..], k)| && WithKey(s[1..], k)[c] == s[j];
      a, b := 0, c + 1;
    } else {
      var a', b' := WithKeyOrder(s[1..], k, i - 1, j - 1);
      if s[0].1 == k {
        a, b := a' + 1, b' + 1;
      } else {
        a, b := a', b';
      }
    }
  }

  /** Two items of `WithKey` come from positions of `s` in the same order. */
  lemma {:induction false} WithKeyOrigin<T>(s: seq<(T, int)>, k: int, a: nat, b: nat) returns (i: nat, j: nat)
    requires a < b < |WithKey(s, k)|
    ensures i < j < |s|
    ensures s[i] == WithKey(s, k)[a] && s[j] == WithKey(s, k)[b]
    decreases |s|
  {
    var w := WithKey(s, k);
    if s[0].1 == k {
      if a == 0 {
        var x := WithKey(s[1..], k)[b - 1];
        WithKeyMembers(s[1..], k);
        assert x in s[1..];
        var c :| 0 <= c < |s[1..]| && s[1..][c] == x;
        i, j := 0, c + 1;
      } else {
        var i', j' := WithKeyOrigin(s[1..], k, a - 1, b - 1);
        i, j := i' + 1, j' + 1;
      }
    } else {
      var i', j' := WithKeyOrigin(s[1..], k, a, b);
      i, j := i' + 1, j' + 1;
    }
  }

  /** In a stable descending sort, two items with the same key keep the order they had. */
  lemma StableOrder<T>(s: seq<(T, int)>, r: seq<(T, int)>, i: nat, j: nat) returns (i': nat, j': nat)
    requires IsStableSortDesc(s, r)
    requires i < j < |r| && r[i].1 == r[j].1
    ensures i' < j' < |s| && s[i'] == r[i] && s[j'] == r[j]
  {
    var k := r[i].1;
    var a, b := WithKeyOrder(r, k, i, j);
    assert WithKey(r, k) == WithKey(s, k);
    i', j' := WithKeyOrigin(s, k, a, b);
  }

  /** Cutting a sorted sequence after `n` items keeps, for every key, a prefix of the items
      with that key. */
  lemma TakeWithKey<T>(s: seq<(T, int)>, n: nat, k: int)
    ensures WithKey(Take(s, n), k) <= WithKey(s, k)
  {
    if n < |s| {
      assert s == s[..n] + s[n..];
      WithKeyAppend(s[..n], s[n..], k);
    }
  }

  /** Cutting a descending sequence drops nothing that outranks what it keeps. */
  lemma TakeKeepsBest<T>(s: seq<(T, int)>, n: nat)
    requires SortedDesc(s)
    ensures multiset(Take(s, n)) <= multiset(s)
    ensures forall x :: multiset(Take(s, n))[x] < multiset(s)[x] ==>
      forall i :: 0 <= i < |Take(s, n)| ==> Take(s, n)[i].1 >= x.1
  {
    var r := Take(s, n);
    var rest := s[|r|..];
    assert s == r + rest;
    assert multiset(s) == multiset(r) + multiset(rest);
    forall x | multiset(r)[x] < multiset(s)[x]
      ensures forall i :: 0 <= i < |r| ==> r[i].1 >= x.1
    {
      assert x in multiset(rest);
      var p :| 0 <= p < |rest| && rest[p] == x;
      assert s[|r| + p] == x;
    }
  }

  /** Sorting only rearranges: every item of the result comes from the input. */
  lemma SortDescMembers<T>(s: seq<(T, int)>)
    ensures forall i :: 0 <= i < |SortDesc(s)| ==> SortDesc(s)[i] in s
  {
    var r := SortDesc(s);
    forall i | 0 <= i < |r|
      ensures r[i] in s
    {
      assert r[i] in multiset(s);
    }
  }
}
