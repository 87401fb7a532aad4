/** The few .NET collection operations the incubator task relies on
    (Enumerable.Where, FirstOrDefault, OrderBy and List<T>.Remove),
    as functions on sequences, with the facts the rest of the model uses. */
module Sequences {

  datatype Option<T> = None | Some(value: T)

  lemma ConcatAssoc<T>(a: seq<T>, b: seq<T>, c: seq<T>)
    ensures a + (b + c) == (a + b) + c
  {
  }

  /** Enumerable.Where: the elements of `s` that satisfy `p`, in their order. */
  function Filter<T>(s: seq<T>, p: T -> bool): (r: seq<T>)
    ensures |r| <= |s|
  {
    if s == [] then [] else (if p(s[0]) then [s[0]] else []) + Filter(s[1..], p)
  }

  lemma {:induction false} FilterAppend<T>(a: seq<T>, b: seq<T>, p: T -> bool)
    ensures Filter(a + b, p) == Filter(a, p) + Filter(b, p)
  {
    if a == [] {
      assert a + b == b;
      assert Filter(a, p) == [];
    } else {
      var h := if p(a[0]) then [a[0]] else [];
      assert (a + b)[0] == a[0];
      assert (a + b)[1..] == a[1..] + b;
      FilterAppend(a[1..], b, p);
      assert Filter(a + b, p) == h + (Filter(a[1..], p) + Filter(b, p));
      assert Filter(a, p) == h + Filter(a[1..], p);
      assert h + (Filter(a[1..], p) + Filter(b, p)) == (h + Filter(a[1..], p)) + Filter(b, p);
    }
  }

  lemma {:induction false} FilterMultiset<T>(s: seq<T>, p: T -> bool)
    ensures multiset(Filter(s, p)) <= multiset(s)
    ensures forall x :: p(x) ==> multiset(Filter(s, p))[x] == multiset(s)[x]
    ensures forall x :: !p(x) ==> multiset(Filter(s, p))[x] == 0
  {
    if s != [] {
      assert s == [s[0]] + s[1..];
      FilterMultiset(s[1..], p);
    }
  }

  /** Filter keeps exactly the elements of `s` that satisfy `p`. */
  lemma FilterMembers<T>(s: seq<T>, p: T -> bool)
    ensures forall x :: x in Filter(s, p) <==> x in s && p(x)
  {
    FilterMultiset(s, p);
    forall x ensures x in Filter(s, p) <==> x in s && p(x) {
      assert x in Filter(s, p) <==> x in multiset(Filter(s, p));
      assert x in s <==> x in multiset(s);
    }
  }

  /** Enumerable.FirstOrDefault(p): the first element satisfying `p`, if any. */
  function FirstWhere<T>(s: seq<T>, p: T -> bool): (r: Option<T>)
    ensures r.None? <==> forall x :: x in s ==> !p(x)
    ensures r.Some? ==> r.value in s && p(r.value)
  {
    if s == [] then None else if p(s[0]) then Some(s[0]) else FirstWhere(s[1..], p)
  }

  /** FirstWhere returns the element at the first index that satisfies `p`. */
  lemma {:induction false} FirstWhereIsFirst<T>(s: seq<T>, p: T -> bool, i: nat)
    requires i < |s| && p(s[i])
    requires forall j :: 0 <= j < i ==> !p(s[j])
    ensures FirstWhere(s, p) == Some(s[i])
  {
    if i > 0 {
      assert !p(s[0]);
      FirstWhereIsFirst(s[1..], p, i - 1);
    }
  }

  /** List<T>.Remove(x): drops the first element equal to `x`; no change when there is none. */
  function Remove<T(==)>(s: seq<T>, x: T): (r: seq<T>)
    ensures x !in s ==> r == s
    ensures x in s ==> multiset(r) == multiset(s) - multiset{x}
  {
    if s == [] then []
    else
      assert s == [s[0]] + s[1..];
      if s[0] == x then s[1..] else [s[0]] + Remove(s[1..], x)
  }

  /** The index of the first element of `s` equal to `x`. */
  function FirstIndex<T(==)>(s: seq<T>, x: T): (i: nat)
    requires x in s
    ensures i < |s| && s[i] == x && x !in s[..i]
  {
    if s[0] == x then 0
    else
      var i := FirstIndex(s[1..], x) + 1;
      assert s[..i] == [s[0]] + s[1..][..i - 1];
      i
  }

  /** Remove deletes exactly the first equal element; everything else stays, in order. */
  lemma {:induction false} RemoveDeletesFirst<T>(s: seq<T>, x: T)
    requires x in s
    ensures Remove(s, x) == s[..FirstIndex(s, x)] + s[FirstIndex(s, x) + 1..]
  {
    var k := FirstIndex(s, x);
    assert s == s[..k] + ([x] + s[k + 1..]);
    RemoveAfter(s[..k], x, s[k + 1..]);
  }

  /** Remove past a prefix that does not hold `x`. */
  lemma {:induction false} RemoveAfter<T>(a: seq<T>, x: T, b: seq<T>)
    requires x !in a
    ensures Remove(a + ([x] + b), x) == a + b
  {
    var s := a + ([x] + b);
    if a == [] {
      assert s == [x] + b;
    } else {
      assert s[0] == a[0];
      assert s[1..] == a[1..] + ([x] + b);
      RemoveAfter(a[1..], x, b);
      assert a + b == [a[0]] + (a[1..] + b);
    }
  }

  /** Removing never brings in a new element. */
  lemma RemoveMembers<T>(s: seq<T>, x: T)
    ensures forall y :: y in Remove(s, x) ==> y in s
  {
    forall y | y in Remove(s, x) ensures y in s {
      assert y in multiset(Remove(s, x));
    }
  }

  /** Whatever a sequence starts with is among its elements. */
  lemma PrefixMembers<T>(a: seq<T>, b: seq<T>)
    requires |a| <= |b| && b[..|a|] == a
    ensures forall x :: x in a ==> x in b
  {
    forall x | x in a ensures x in b {
      var k :| 0 <= k < |a| && a[k] == x;
      assert b[k] == b[..|a|][k];
    }
  }

  ghost predicate SortedBy<T>(s: seq<T>, key: T -> real)
  {
    forall i, j :: 0 <= i < j < |s| ==> key(s[i]) <= key(s[j])
  }

  /** A key no greater than every key of `s`, put in front, keeps `s` sorted. */
  lemma PrependKeepsSorted<T>(x: T, s: seq<T>, key: T -> real)
    requires SortedBy(s, key)
    requires forall y :: y in multiset(s) ==> key(x) <= key(y)
    ensures SortedBy([x] + s, key)
  {
    var r := [x] + s;
    forall i, j | 0 <= i < j < |r| ensures key(r[i]) <= key(r[j]) {
      assert r[j] == s[j - 1];
      assert s[j - 1] in multiset(s);
      if i > 0 {
        assert r[i] == s[i - 1];
      }
    }
  }

  /** Every element of `s` has a key no smaller than that of the head of its sorted parent. */
  lemma TailKeysAbove<T>(s: seq<T>, key: T -> real)
    requires s != [] && SortedBy(s, key)
    ensures SortedBy(s[1..], key)
    ensures forall y :: y in multiset(s[1..]) ==> key(s[0]) <= key(y)
  {
    var t := s[1..];
    forall i, j | 0 <= i < j < |t| ensures key(t[i]) <= key(t[j]) {
      assert t[i] == s[i + 1] && t[j] == s[j + 1];
    }
    forall y | y in multiset(t) ensures key(s[0]) <= key(y) {
      assert y in t;
      var k :| 0 <= k < |t| && t[k] == y;
      assert s[k + 1] == y;
    }
  }

  lemma {:induction false} RemoveKeepsSorted<T>(s: seq<T>, x: T, key: T -> real)
    requires SortedBy(s, key)
    ensures SortedBy(Remove(s, x), key)
  {
    if s != [] && s[0] != x {
      var t := s[1..];
      TailKeysAbove(s, key);
      RemoveKeepsSorted(t, x, key);
      assert multiset(Remove(t, x)) <= multiset(t);
      PrependKeepsSorted(s[0], Remove(t, x), key);
      assert Remove(s, x) == [s[0]] + Remove(t, x);
    }
  }

  /** One insertion step of a stable sort: `x` goes before the first element whose key is not smaller. */
  function Insert<T>(x: T, s: seq<T>, key: T -> real): seq<T>
  {
    if s == [] || key(x) <= key(s[0]) then [x] + s
    else [s[0]] + Insert(x, s[1..], key)
  }

  lemma {:induction false} InsertMultiset<T>(x: T, s: seq<T>, key: T -> real)
    ensures multiset(Insert(x, s, key)) == multiset(s) + multiset{x}
  {
    if s != [] && key(s[0]) < key(x) {
      assert s == [s[0]] + s[1..];
      InsertMultiset(x, s[1..], key);
    }
  }

  lemma {:induction false} InsertKeepsSorted<T>(x: T, s: seq<T>, key: T -> real)
    requires SortedBy(s, key)
    ensures SortedBy(Insert(x, s, key), key)
  {
    if s == [] || key(x) <= key(s[0]) {
      forall y | y in multiset(s) ensures key(x) <= key(y) {
        assert y in s;
        var k :| 0 <= k < |s| && s[k] == y;
        assert key(s[0]) <= key(s[k]);
      }
      PrependKeepsSorted(x, s, key);
    } else {
      var t := s[1..];
      TailKeysAbove(s, key);
      InsertKeepsSorted(x, t, key);
      InsertMultiset(x, t, key);
      PrependKeepsSorted(s[0], Insert(x, t, key), key);
      assert Insert(x, s, key) == [s[0]] + Insert(x, t, key);
    }
  }

  /** Inserting past a run of smaller keys up to a key that is not smaller. */
  lemma {:induction false} InsertPast<T>(x: T, u: seq<T>, l: seq<T>, key: T -> real)
    requires forall i :: 0 <= i < |u| ==> key(u[i]) < key(x)
    requires l == [] || key(x) <= key(l[0])
    ensures Insert(x, u + l, key) == u + ([x] + l)
  {
    var w := [x] + l;
    if u == [] {
      assert u + l == l;
      assert u + w == w;
    } else {
      var v := u + l;
      var h, u' := u[0], u[1..];
      assert v[0] == h;
      assert key(h) < key(x);
      assert Insert(x, v, key) == [h] + Insert(x, v[1..], key);
      assert v[1..] == u' + l;
      forall i | 0 <= i < |u'| ensures key(u'[i]) < key(x) {
        assert u'[i] == u[i + 1];
      }
      InsertPast(x, u', l, key);
      ConcatAssoc([h], u', w);
      assert [h] + u' == u;
    }
  }

  /** Enumerable.OrderBy(key): a stable sort, ascending by `key`. */
  function SortBy<T>(s: seq<T>, key: T -> real): (r: seq<T>)
    ensures multiset(r) == multiset(s)
  {
    if s == [] then []
    else
      assert s == [s[0]] + s[1..];
      InsertMultiset(s[0], SortBy(s[1..], key), key);
      Insert(s[0], SortBy(s[1..], key), key)
  }

  /** Sorting neither adds nor drops an element. */
  lemma SortByMembers<T>(s: seq<T>, key: T -> real)
    ensures forall x :: x in SortBy(s, key) <==> x in s
  {
    forall x ensures x in SortBy(s, key) <==> x in s {
      assert x in SortBy(s, key) <==> x in multiset(SortBy(s, key));
      assert x in s <==> x in multiset(s);
    }
  }

  lemma {:induction false} SortBySorted<T>(s: seq<T>, key: T -> real)
    ensures SortedBy(SortBy(s, key), key)
  {
    if s != [] {
      SortBySorted(s[1..], key);
      InsertKeepsSorted(s[0], SortBy(s[1..], key), key);
    }
  }

  lemma {:induction false} InsertStable<T>(x: T, s: seq<T>, key: T -> real, p: T -> bool, k: real)
    requires forall y :: p(y) <==> key(y) == k
    ensures Filter(Insert(x, s, key), p) == (if p(x) then [x] else []) + Filter(s, p)
  {
    var px := if p(x) then [x] else [];
    if s == [] || key(x) <= key(s[0]) {
      var r := [x] + s;
      assert r[0] == x && r[1..] == s;
      assert Insert(x, s, key) == r;
      assert Filter(r, p) == px + Filter(s, p);
    } else {
      var t := Insert(x, s[1..], key);
      var r := [s[0]] + t;
      assert r[0] == s[0] && r[1..] == t;
      assert Insert(x, s, key) == r;
      InsertStable(x, s[1..], key, p, k);
      if p(x) {
        assert !p(s[0]);
        assert Filter(r, p) == Filter(t, p);
        assert Filter(s, p) == Filter(s[1..], p);
      } else {
        assert Filter(t, p) == Filter(s[1..], p);
        assert Filter(r, p) == (if p(s[0]) then [s[0]] else []) + Filter(s[1..], p);
      }
    }
  }

  /** Stability: the elements of any one key keep their original relative order. */
  lemma {:induction false} SortByStable<T>(s: seq<T>, key: T -> real, p: T -> bool, k: real)
    requires forall y :: p(y) <==> key(y) == k
    ensures Filter(SortBy(s, key), p) == Filter(s, p)
  {
    if s != [] {
      SortByStable(s[1..], key, p, k);
      InsertStable(s[0], SortBy(s[1..], key), key, p, k);
    }
  }

  /** `a` is `b` with some elements left out, order kept. */
  ghost predicate IsSubsequence<T>(a: seq<T>, b: seq<T>)
    decreases |b|
  {
    if a == [] then true
    else if b == [] then false
    else (a[|a| - 1] == b[|b| - 1] && IsSubsequence(a[..|a| - 1], b[..|b| - 1]))
         || IsSubsequence(a, b[..|b| - 1])
  }

  /** A subsequence stays one when both sides grow by the same element, or
      when only the longer side grows. */
  lemma SubsequenceSnoc<T>(a: seq<T>, b: seq<T>, x: T)
    requires IsSubsequence(a, b)
    ensures IsSubsequence(a + [x], b + [x])
    ensures IsSubsequence(a, b + [x])
  {
    var a', b' := a + [x], b + [x];
    assert a'[..|a'| - 1] == a && b'[..|b'| - 1] == b;
  }

  /** Cutting a prefix short is cutting the whole short. */
  lemma TakeTake<T>(s: seq<T>, k: nat, k': nat)
    requires k <= k' <= |s|
    ensures s[..k'][..k] == s[..k]
  {
  }

  /** Being a prefix is transitive. */
  lemma PrefixTrans<T>(a: seq<T>, b: seq<T>, c: seq<T>)
    requires a <= b && b <= c
    ensures a <= c
  {
    assert c[..|b|][..|a|] == c[..|a|];
  }

  /** A subsequence of a prefix is a subsequence of the whole. */
  lemma {:induction false} SubsequencePrefix<T>(a: seq<T>, b: seq<T>, k: nat)
    requires k <= |b| && IsSubsequence(a, b[..k])
    ensures IsSubsequence(a, b)
    decreases |b| - k
  {
    if k < |b| {
      var b' := b[..|b| - 1];
      assert b'[..k] == b[..k];
      SubsequencePrefix(a, b', k);
    } else {
      assert b[..k] == b;
    }
  }

  ghost predicate Distinct<T>(s: seq<T>)
  {
    forall i, j :: 0 <= i < j < |s| ==> s[i] != s[j]
  }

  lemma {:induction false} SubsequenceMembers<T>(a: seq<T>, b: seq<T>)
    requires IsSubsequence(a, b)
    ensures forall x :: x in a ==> x in b
    decreases |b|
  {
    if a != [] {
      var a', b' := a[..|a| - 1], b[..|b| - 1];
      if a[|a| - 1] == b[|b| - 1] && IsSubsequence(a', b') {
        SubsequenceMembers(a', b');
        assert a == a' + [a[|a| - 1]];
        assert b == b' + [b[|b| - 1]];
      } else {
        SubsequenceMembers(a, b');
        assert b == b' + [b[|b| - 1]];
      }
    }
  }

  /** Leaving elements out of a sequence without repetitions leaves none. */
  lemma {:induction false} SubsequenceDistinct<T>(a: seq<T>, b: seq<T>)
    requires IsSubsequence(a, b) && Distinct(b)
    ensures Distinct(a)
    decreases |b|
  {
    if a != [] {
      var a', b' := a[..|a| - 1], b[..|b| - 1];
      assert Distinct(b');
      if a[|a| - 1] == b[|b| - 1] && IsSubsequence(a', b') {
        SubsequenceDistinct(a', b');
        SubsequenceMembers(a', b');
        forall i, j | 0 <= i < j < |a| ensures a[i] != a[j] {
          if j == |a| - 1 {
            assert a[i] in a';
            assert a[i] in b';
            var k :| 0 <= k < |b'| && b'[k] == a[i];
            assert b[k] != b[|b| - 1];
          } else {
            assert a'[i] != a'[j];
          }
        }
      } else {
        SubsequenceDistinct(a, b');
      }
    }
  }
}
