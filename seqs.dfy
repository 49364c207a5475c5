/** The array combinators the dashboard code chains (`filter`, `reduce` into a sum,
    `includes`-guarded pushes), stated over sequences, with the facts the
    aggregation proofs share. */
module Seqs {

  /** `s.filter(p)`: the elements of `s` that satisfy `p`, in their original order. */
  function Select<T>(s: seq<T>, p: T -> bool): (r: seq<T>)
    ensures |r| <= |s|
    ensures forall x :: x in r ==> x in s && p(x)
  {
    if s == [] then [] else (if p(s[0]) then [s[0]] else []) + Select(s[1..], p)
  }

  /** `s.reduce((acc, x) => acc + w(x), 0)`. */
  function Sum<T>(s: seq<T>, w: T -> nat): nat {
    if s == [] then 0 else w(s[0]) + Sum(s[1..], w)
  }

  /** No element occurs twice. */
  predicate NoDup<T(==)>(s: seq<T>) {
    forall i, j :: 0 <= i < j < |s| ==> s[i] != s[j]
  }

  /** `idx` picks the elements of `a` out of `b` at strictly increasing positions. */
  ghost predicate Embeds<T>(idx: seq<nat>, a: seq<T>, b: seq<T>) {
    && |idx| == |a|
    && (forall k :: 0 <= k < |idx| ==> idx[k] < |b| && a[k] == b[idx[k]])
    && (forall k, l :: 0 <= k < l < |idx| ==> idx[k] < idx[l])
  }

  /** `a` is `b` with some elements dropped and the rest kept in order. */
  ghost predicate SubsequenceOf<T>(a: seq<T>, b: seq<T>) {
    exists idx: seq<nat> :: Embeds(idx, a, b)
  }

  lemma {:induction false} SelectAppend<T>(a: seq<T>, b: seq<T>, p: T -> bool)
    ensures Select(a + b, p) == Select(a, p) + Select(b, p)
  {
    if a == [] {
      assert a + b == b;
    } else {
      assert (a + b)[0] == a[0];
      assert (a + b)[1..] == a[1..] + b;
      SelectAppend(a[1..], b, p);
    }
  }

  lemma {:induction false} SelectMember<T>(s: seq<T>, p: T -> bool, x: T)
    ensures x in Select(s, p) <==> x in s && p(x)
  {
    if s != [] {
      SelectMember(s[1..], p, x);
      assert x in s <==> x == s[0] || x in s[1..];
    }
  }

  /** Selection keeps every wanted element with its multiplicity and drops the rest. */
  lemma {:induction false} SelectCount<T>(s: seq<T>, p: T -> bool, x: T)
    ensures multiset(Select(s, p))[x] == if p(x) then multiset(s)[x] else 0
  {
    if s != [] {
      SelectCount(s[1..], p, x);
      assert s == [s[0]] + s[1..];
    }
  }

  lemma {:induction false} SelectAll<T>(s: seq<T>, p: T -> bool)
    requires forall x :: x in s ==> p(x)
    ensures Select(s, p) == s
  {
    if s != [] {
      assert s[0] in s;
      forall x | x in s[1..] ensures p(x) { assert x in s; }
      SelectAll(s[1..], p);
    }
  }

  /** Two predicates that agree on the elements of `s` select the same elements. */
  lemma {:induction false} SelectCongruent<T>(s: seq<T>, p: T -> bool, q: T -> bool)
    requires forall x :: x in s ==> p(x) == q(x)
    ensures Select(s, p) == Select(s, q)
  {
    if s != [] {
      assert s[0] in s;
      forall x | x in s[1..] ensures p(x) == q(x) { assert x in s; }
      SelectCongruent(s[1..], p, q);
    }
  }

  lemma {:induction false} SelectCons<T>(x: T, s: seq<T>, p: T -> bool)
    ensures Select([x] + s, p) == (if p(x) then [x] else []) + Select(s, p)
  {
    assert ([x] + s)[0] == x;
    assert ([x] + s)[1..] == s;
  }

  /** Two neighbours that `p` does not both keep can trade places without changing what `p` keeps. */
  lemma SelectSwap<T>(x: T, y: T, u: seq<T>, t: seq<T>, p: T -> bool)
    requires !(p(x) && p(y))
    requires Select(u, p) == Select([x] + t, p)
    ensures Select([y] + u, p) == Select([x] + ([y] + t), p)
  {
    if p(x) {
      SelectSwapKept(x, y, u, t, p);
    } else {
      SelectSwapDropped(x, y, u, t, p);
    }
  }

  lemma SelectSwapKept<T>(x: T, y: T, u: seq<T>, t: seq<T>, p: T -> bool)
    requires p(x) && !p(y)
    requires Select(u, p) == Select([x] + t, p)
    ensures Select([y] + u, p) == Select([x] + ([y] + t), p)
  {
    SelectCons(y, u, p);
    SelectCons(x, t, p);
    SelectCons(y, t, p);
    SelectCons(x, [y] + t, p);
    assert [] + Select(u, p) == Select(u, p);
    assert [] + Select(t, p) == Select(t, p);
  }

  lemma SelectSwapDropped<T>(x: T, y: T, u: seq<T>, t: seq<T>, p: T -> bool)
    requires !p(x)
    requires Select(u, p) == Select([x] + t, p)
    ensures Select([y] + u, p) == Select([x] + ([y] + t), p)
  {
    SelectCons(y, u, p);
    SelectCons(x, t, p);
    SelectCons(x, [y] + t, p);
    assert [] + Select(t, p) == Select(t, p);
    assert [] + Select([y] + t, p) == Select([y] + t, p);
  }

  lemma {:induction false} SelectCommute<T>(s: seq<T>, p: T -> bool, q: T -> bool)
    ensures Select(Select(s, p), q) == Select(Select(s, q), p)
  {
    if s != [] {
      var x, t := s[0], s[1..];
      assert s == [x] + t;
      SelectCons(x, t, p);
      SelectCons(x, t, q);
      SelectCommute(t, p, q);
      var tp, tq := Select(t, p), Select(t, q);
      if p(x) {
        SelectCons(x, tp, q);
        assert Select(Select(s, p), q) == (if q(x) then [x] else []) + Select(tp, q);
      } else {
        assert Select(s, p) == tp;
      }
      if q(x) {
        SelectCons(x, tq, p);
        assert Select(Select(s, q), p) == (if p(x) then [x] else []) + Select(tq, p);
      } else {
        assert Select(s, q) == tq;
      }
    }
  }

  lemma MultisetExtensional<T>(ma: multiset<T>, mb: multiset<T>)
    requires forall x :: ma[x] == mb[x]
    ensures ma == mb
  {
  }

  /** Selecting from two permutations of each other gives permutations of each other. */
  lemma SelectPermutation<T>(a: seq<T>, b: seq<T>, p: T -> bool)
    requires multiset(a) == multiset(b)
    ensures multiset(Select(a, p)) == multiset(Select(b, p))
  {
    var ma, mb := multiset(Select(a, p)), multiset(Select(b, p));
    forall x ensures ma[x] == mb[x] {
      SelectCount(a, p, x);
      SelectCount(b, p, x);
      assert multiset(a)[x] == multiset(b)[x];
    }
    MultisetExtensional(ma, mb);
  }

  function Shift(idx: seq<nat>): seq<nat> {
    seq(|idx|, k requires 0 <= k < |idx| => idx[k] + 1)
  }

  /** An embedding into `t` is one into `[x] + t`, one position further on. */
  lemma EmbedsShift<T>(idx: seq<nat>, a: seq<T>, x: T, t: seq<T>)
    requires Embeds(idx, a, t)
    ensures Embeds(Shift(idx), a, [x] + t)
  {
    forall k | 0 <= k < |idx| ensures Shift(idx)[k] < |[x] + t| && a[k] == ([x] + t)[Shift(idx)[k]] {
      assert ([x] + t)[idx[k] + 1] == t[idx[k]];
    }
  }

  lemma EmbedsCons<T>(idx: seq<nat>, a: seq<T>, x: T, t: seq<T>)
    requires Embeds(idx, a, t)
    ensures Embeds([0] + Shift(idx), [x] + a, [x] + t)
  {
    EmbedsShift(idx, a, x, t);
    ConsPicks(Shift(idx), a, x, [x] + t);
    ConsIncreasing(idx);
  }

  /** Picking position 0 of `b` first, then what `j` picks, gives `[b[0]] + a`. */
  lemma ConsPicks<T>(j: seq<nat>, a: seq<T>, x: T, b: seq<T>)
    requires Embeds(j, a, b) && b != [] && b[0] == x
    ensures forall k :: 0 <= k < |[0] + j| ==> ([0] + j)[k] < |b| && ([x] + a)[k] == b[([0] + j)[k]]
  {
    forall k | 0 < k < |[0] + j| ensures ([0] + j)[k] < |b| && ([x] + a)[k] == b[([0] + j)[k]] {
      assert ([0] + j)[k] == j[k - 1] && ([x] + a)[k] == a[k - 1];
    }
  }

  /** Shifted positions are all past 0, so putting 0 in front keeps them increasing. */
  lemma ConsIncreasing(idx: seq<nat>)
    requires forall k, l :: 0 <= k < l < |idx| ==> idx[k] < idx[l]
    ensures forall k, l :: 0 <= k < l < |[0] + Shift(idx)| ==> ([0] + Shift(idx))[k] < ([0] + Shift(idx))[l]
  {
    var shifted := Shift(idx);
    var j := [0] + shifted;
    forall k, l | 0 <= k < l < |j| ensures j[k] < j[l] {
      assert j[l] == shifted[l - 1];
      if 0 < k {
        assert j[k] == shifted[k - 1];
      }
    }
  }

  lemma {:induction false} SelectEmbedding<T>(s: seq<T>, p: T -> bool) returns (idx: seq<nat>)
    ensures Embeds(idx, Select(s, p), s)
  {
    if s == [] {
      idx := [];
    } else {
      var t := s[1..];
      assert s == [s[0]] + t;
      var rest := SelectEmbedding(t, p);
      if p(s[0]) {
        EmbedsCons(rest, Select(t, p), s[0], t);
        idx := [0] + Shift(rest);
      } else {
        EmbedsShift(rest, Select(t, p), s[0], t);
        idx := Shift(rest);
      }
    }
  }

  /** The selection is a subsequence: same elements, same relative order. */
  lemma SelectSubsequence<T>(s: seq<T>, p: T -> bool)
    ensures SubsequenceOf(Select(s, p), s)
  {
    var idx := SelectEmbedding(s, p);
  }

  lemma {:induction false} SumAppend<T>(a: seq<T>, b: seq<T>, w: T -> nat)
    ensures Sum(a + b, w) == Sum(a, w) + Sum(b, w)
  {
    if a == [] {
      assert a + b == b;
    } else {
      assert (a + b)[1..] == a[1..] + b;
      SumAppend(a[1..], b, w);
    }
  }

  /** Removing position `i` takes its weight out of the sum. */
  lemma SumRemove<T>(b: seq<T>, i: nat, w: T -> nat)
    requires i < |b|
    ensures Sum(b, w) == w(b[i]) + Sum(b[..i] + b[i + 1..], w)
  {
    var pre, x, post := b[..i], b[i], b[i + 1..];
    assert b == pre + [x] + post;
    SumAppend(pre + [x], post, w);
    SumAppend(pre, [x], w);
    SumAppend(pre, post, w);
    assert Sum([x], w) == w(x);
  }

  lemma MultisetRemove<T>(b: seq<T>, i: nat)
    requires i < |b|
    ensures multiset(b[..i] + b[i + 1..]) == multiset(b) - multiset{b[i]}
  {
    assert b == b[..i] + [b[i]] + b[i + 1..];
  }

  /** A sum does not depend on the order of its terms. */
  lemma {:induction false} SumPermutation<T>(a: seq<T>, b: seq<T>, w: T -> nat)
    requires multiset(a) == multiset(b)
    ensures Sum(a, w) == Sum(b, w)
    decreases |a|
  {
    if a == [] {
      assert |b| == |multiset(b)| == 0;
    } else {
      assert a[0] in multiset(b);
      var i :| 0 <= i < |b| && b[i] == a[0];
      MultisetRemove(b, i);
      assert a == [a[0]] + a[1..];
      assert multiset(a[1..]) == multiset(a) - multiset{a[0]};
      SumPermutation(a[1..], b[..i] + b[i + 1..], w);
      SumRemove(b, i, w);
    }
  }

  lemma {:induction false} NoDupCount<T>(s: seq<T>, x: T)
    requires NoDup(s)
    ensures multiset(s)[x] <= 1
  {
    if s != [] {
      assert s == [s[0]] + s[1..];
      assert NoDup(s[1..]);
      NoDupCount(s[1..], x);
      if x == s[0] {
        assert x !in s[1..];
      }
    }
  }

  /** A sequence with the same elements as a duplicate-free one is duplicate-free. */
  lemma NoDupPermutation<T>(a: seq<T>, b: seq<T>)
    requires NoDup(a) && multiset(a) == multiset(b)
    ensures NoDup(b)
  {
    forall i, j | 0 <= i < j < |b| ensures b[i] != b[j] {
      if b[i] == b[j] {
        var x := b[i];
        assert b == b[..j] + b[j..];
        assert x in b[..j] && x in b[j..];
        assert multiset(b)[x] == multiset(b[..j])[x] + multiset(b[j..])[x];
        NoDupCount(a, x);
        assert false;
      }
    }
  }

  lemma SelectNoDup<T>(s: seq<T>, p: T -> bool)
    requires NoDup(s)
    ensures NoDup(Select(s, p))
  {
    var r := Select(s, p);
    forall i, j | 0 <= i < j < |r| ensures r[i] != r[j] {
      if r[i] == r[j] {
        var x := r[i];
        assert r == r[..j] + r[j..];
        assert x in r[..j] && x in r[j..];
        assert multiset(r)[x] == multiset(r[..j])[x] + multiset(r[j..])[x];
        SelectCount(s, p, x);
        NoDupCount(s, x);
        assert false;
      }
    }
  }
}
