/** The library sort: its result is sorted by the key and a permutation, nothing more is known. */
module Ordering {

  ghost predicate SortedBy<T>(s: seq<T>, key: T -> real) {
    forall i, j :: 0 <= i < j < |s| ==> key(s[i]) <= key(s[j])
  }

  ghost predicate Sorted(s: seq<real>) {
    SortedBy(s, x => x)
  }

  lemma MultisetOfMiddle<T>(a: seq<T>, x: T, c: seq<T>)
    ensures multiset(a + ([x] + c)) == multiset(a) + multiset{x} + multiset(c)
    ensures multiset(a + c) == multiset(a) + multiset(c)
  {
  }

  lemma InsertKeepsElements<T>(s: seq<T>, x: T, p: nat)
    requires p <= |s|
    ensures multiset(s[..p] + ([x] + s[p..])) == multiset(s) + multiset{x}
  {
    MultisetOfMiddle(s[..p], x, s[p..]);
    assert s == s[..p] + s[p..];
  }

  lemma InsertKeepsOrder<T>(s: seq<T>, x: T, p: nat, key: T -> real)
    requires SortedBy(s, key) && p <= |s|
    requires forall k :: p <= k < |s| ==> key(x) < key(s[k])
    requires p > 0 ==> key(s[p - 1]) <= key(x)
    ensures SortedBy(s[..p] + ([x] + s[p..]), key)
  {
  }

  method Insert<T>(s: seq<T>, x: T, key: T -> real) returns (r: seq<T>)
    requires SortedBy(s, key)
    ensures SortedBy(r, key)
    ensures multiset(r) == multiset(s) + multiset{x}
  {
    var p := |s|;
    while p > 0 && key(x) < key(s[p - 1])
      invariant 0 <= p <= |s|
      invariant forall k :: p <= k < |s| ==> key(x) < key(s[k])
    {
      p := p - 1;
    }
    r := s[..p] + ([x] + s[p..]);
    InsertKeepsOrder(s, x, p, key);
    InsertKeepsElements(s, x, p);
  }

  method Sort<T>(s: seq<T>, key: T -> real) returns (r: seq<T>)
    ensures SortedBy(r, key)
    ensures multiset(r) == multiset(s)
  {
    r := [];
    for i := 0 to |s|
      invariant SortedBy(r, key)
      invariant multiset(r) == multiset(s[..i])
    {
      assert s[..i + 1] == s[..i] + [s[i]];
      r := Insert(r, s[i], key);
    }
    assert s[..|s|] == s;
  }

  lemma PermutationFacts<T>(s: seq<T>, t: seq<T>)
    requires multiset(s) == multiset(t)
    ensures |s| == |t|
    ensures forall x :: x in s <==> x in t
  {
    assert |multiset(s)| == |s| && |multiset(t)| == |t|;
    assert forall x :: x in s <==> x in multiset(s);
    assert forall x :: x in t <==> x in multiset(t);
  }

  lemma MultisetCancels(a: multiset<real>, b: multiset<real>, x: real)
    requires a + multiset{x} == b + multiset{x}
    ensures a == b
  {
    assert (a + multiset{x}) - multiset{x} == a;
    assert (b + multiset{x}) - multiset{x} == b;
  }

  lemma LastIsGreatest(s: seq<real>, x: real)
    requires Sorted(s) && x in s
    ensures x <= s[|s| - 1] && Sorted(s[..|s| - 1])
  {
  }

  lemma SameWithoutLast(s: seq<real>, t: seq<real>)
    requires multiset(s) == multiset(t) && |s| == |t| > 0 && s[|s| - 1] == t[|t| - 1]
    ensures multiset(s[..|s| - 1]) == multiset(t[..|t| - 1])
  {
    var n := |s| - 1;
    assert s == s[..n] + [s[n]] && t == t[..n] + [t[n]];
    MultisetCancels(multiset(s[..n]), multiset(t[..n]), s[n]);
  }

  /** A multiset has only one sorted sequence. */
  lemma {:induction false} SortedUnique(s: seq<real>, t: seq<real>)
    requires Sorted(s) && Sorted(t) && multiset(s) == multiset(t)
    ensures s == t
    decreases |s|
  {
    PermutationFacts(s, t);
    if s == [] {
    } else {
      var n := |s| - 1;
      hide SortedBy;
      LastIsGreatest(s, t[n]);
      LastIsGreatest(t, s[n]);
      SameWithoutLast(s, t);
      SortedUnique(s[..n], t[..n]);
      assert s == s[..n] + [s[n]] && t == t[..n] + [t[n]];
    }
  }

  ghost function Count(s: seq<real>, f: real -> bool): (c: nat)
    ensures c <= |s|
  {
    if s == [] then 0 else (if f(s[0]) then 1 else 0) + Count(s[1..], f)
  }

  lemma {:induction false} CountConcat(s: seq<real>, t: seq<real>, f: real -> bool)
    ensures Count(s + t, f) == Count(s, f) + Count(t, f)
  {
    if s == [] {
      assert s + t == t;
    } else {
      CountConcat(s[1..], t, f);
      assert (s + t)[1..] == s[1..] + t;
    }
  }

  lemma CountOfMiddle(a: seq<real>, x: real, c: seq<real>, f: real -> bool)
    ensures Count(a + ([x] + c), f) == Count(a + c, f) + if f(x) then 1 else 0
  {
    CountConcat(a, [x] + c, f);
    CountConcat([x], c, f);
    CountConcat(a, c, f);
  }

  lemma PermutationRest(x: real, rest: seq<real>, a: seq<real>, c: seq<real>)
    requires multiset([x] + rest) == multiset(a + ([x] + c))
    ensures multiset(rest) == multiset(a + c)
  {
    MultisetOfMiddle([], x, rest);
    assert [] + ([x] + rest) == [x] + rest && [] + rest == rest;
    MultisetOfMiddle(a, x, c);
    assert multiset(a) + multiset{x} + multiset(c) == multiset(a) + multiset(c) + multiset{x};
    MultisetCancels(multiset(rest), multiset(a + c), x);
  }

  lemma {:induction false} CountPermutation(s: seq<real>, t: seq<real>, f: real -> bool)
    requires multiset(s) == multiset(t)
    ensures Count(s, f) == Count(t, f)
    decreases |s|
  {
    PermutationFacts(s, t);
    if s == [] {
    } else {
      var x, rest := s[0], s[1..];
      assert x in s;
      var k :| 0 <= k < |t| && t[k] == x;
      var a, c := t[..k], t[k + 1..];
      assert s == [x] + rest && t == a + ([x] + c);
      PermutationRest(x, rest, a, c);
      CountPermutation(rest, a + c, f);
      CountOfMiddle(a, x, c, f);
    }
  }

  lemma {:induction false} CountAll(s: seq<real>, f: real -> bool)
    requires forall i :: 0 <= i < |s| ==> f(s[i])
    ensures Count(s, f) == |s|
  {
    if s == [] {
    } else {
      CountAll(s[1..], f);
    }
  }

  lemma {:induction false} CountNone(s: seq<real>, f: real -> bool)
    requires forall i :: 0 <= i < |s| ==> !f(s[i])
    ensures Count(s, f) == 0
  {
    if s == [] {
    } else {
      CountNone(s[1..], f);
    }
  }

  lemma CountAppend(s: seq<real>, x: real, f: real -> bool)
    ensures Count(s + [x], f) == Count(s, f) + if f(x) then 1 else 0
  {
    CountConcat(s, [x], f);
  }

  ghost function Below(v: real): real -> bool {
    x => x < v
  }

  ghost function AtMost(v: real): real -> bool {
    x => x <= v
  }

  /** The entry at position r - 1 of a sorted sequence is its r-th smallest. */
  lemma RankInSorted(s: seq<real>, r: nat, v: real)
    requires Sorted(s) && 0 < r <= |s| && s[r - 1] == v
    ensures Count(s, Below(v)) < r <= Count(s, AtMost(v))
  {
    assert forall i :: r - 1 <= i < |s| ==> v <= s[i];
    assert forall i :: 0 <= i < r ==> s[i] <= v;
    hide SortedBy;
    assert s == s[..r - 1] + s[r - 1..] && s == s[..r] + s[r..];
    CountConcat(s[..r - 1], s[r - 1..], Below(v));
    CountNone(s[r - 1..], Below(v));
    CountConcat(s[..r], s[r..], AtMost(v));
    CountAll(s[..r], AtMost(v));
  }
}
