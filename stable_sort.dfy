/** `Array.prototype.sort(comparator)` as ECMAScript 2019 and later define it:
    a stable sort that keeps `a` before `b` unless `comparator(a, b) > 0`.
    The comparator is given here as the relation `le(a, b)`, read as
    "`comparator(a, b) <= 0`"; the model is insertion sort, which is stable. */
module StableSort {
  import opened Seqs

  /** A consistent comparator: any two elements compare, and `<=` chains.
      (ECMAScript leaves the order implementation-defined otherwise.) */
  ghost predicate TotalPreorder<T(!new)>(le: (T, T) -> bool) {
    && (forall x, y :: le(x, y) || le(y, x))
    && (forall x, y, z :: le(x, y) && le(y, z) ==> le(x, z))
  }

  /** Compares elements by a key: `(a, b) => le(key(a), key(b))`. */
  function By<T, K>(key: T -> K, le: (K, K) -> bool): (T, T) -> bool {
    (a: T, b: T) => le(key(a), key(b))
  }

  /** Comparing by a key under a consistent comparator is consistent. */
  lemma ByPreorder<T(!new), K(!new)>(key: T -> K, le: (K, K) -> bool)
    requires TotalPreorder(le)
    ensures TotalPreorder(By(key, le))
  {
    var cmp := By(key, le);
    forall a, b ensures cmp(a, b) || cmp(b, a) {
      assert le(key(a), key(b)) || le(key(b), key(a));
    }
    forall a, b, c | cmp(a, b) && cmp(b, c) ensures cmp(a, c) {
      assert le(key(a), key(b)) && le(key(b), key(c));
    }
  }

  ghost predicate SortedBy<T>(le: (T, T) -> bool, s: seq<T>) {
    forall i, j :: 0 <= i < j < |s| ==> le(s[i], s[j])
  }

  /** The elements `le` cannot tell apart from `z`: they compare as `0` with it. */
  function TiedWith<T>(le: (T, T) -> bool, z: T): T -> bool {
    e => le(e, z) && le(z, e)
  }

  /** Places `x`, which came first in the input, before the first element it may precede. */
  function Insert<T>(x: T, s: seq<T>, le: (T, T) -> bool): (r: seq<T>)
    ensures multiset(r) == multiset(s) + multiset{x}
  {
    if s == [] || le(x, s[0]) then [x] + s
    else
      assert s == [s[0]] + s[1..];
      [s[0]] + Insert(x, s[1..], le)
  }

  function Sort<T>(s: seq<T>, le: (T, T) -> bool): (r: seq<T>)
    ensures multiset(r) == multiset(s)
    ensures |r| == |s|
  {
    if s == [] then [] else
      assert s == [s[0]] + s[1..];
      Insert(s[0], Sort(s[1..], le), le)
  }

  lemma {:induction false} InsertSorted<T(!new)>(x: T, s: seq<T>, le: (T, T) -> bool)
    requires TotalPreorder(le) && SortedBy(le, s)
    ensures SortedBy(le, Insert(x, s, le))
  {
    if s != [] && !le(x, s[0]) {
      assert le(s[0], x);
      InsertSorted(x, s[1..], le);
      var r := Insert(x, s[1..], le);
      forall e | e in r ensures le(s[0], e) {
        assert e in multiset(r);
        if e != x {
          assert e in s[1..];
        }
      }
    }
  }

  /** The output is ascending under a consistent comparator. */
  lemma {:induction false} SortSorted<T(!new)>(s: seq<T>, le: (T, T) -> bool)
    requires TotalPreorder(le)
    ensures SortedBy(le, Sort(s, le))
  {
    if s != [] {
      SortSorted(s[1..], le);
      InsertSorted(s[0], Sort(s[1..], le), le);
    }
  }

  /** Any two elements tied with `z` compare `<=` both ways. */
  ghost predicate TiesCompare<T(!new)>(le: (T, T) -> bool, z: T) {
    forall a, b :: TiedWith(le, z)(a) && TiedWith(le, z)(b) ==> le(a, b)
  }

  lemma TiesCompareOfPreorder<T(!new)>(le: (T, T) -> bool, z: T)
    requires TotalPreorder(le)
    ensures TiesCompare(le, z)
  {
  }

  lemma {:induction false} InsertTies<T(!new)>(x: T, s: seq<T>, le: (T, T) -> bool, z: T)
    requires TiesCompare(le, z)
    ensures Select(Insert(x, s, le), TiedWith(le, z)) == Select([x] + s, TiedWith(le, z))
  {
    var tied := TiedWith(le, z);
    if s != [] && !le(x, s[0]) {
      var y, t := s[0], s[1..];
      // y sorts strictly below x, so x and y are not both tied with z.
      assert !(tied(x) && tied(y));
      InsertTies(x, t, le, z);
      assert Insert(x, s, le) == [y] + Insert(x, t, le);
      assert s == [y] + t;
      SelectSwap(x, y, Insert(x, t, le), t, tied);
    }
  }

  /** Stability: the elements that compare equal to any `z` come out in input order. */
  lemma {:induction false} SortStable<T(!new)>(s: seq<T>, le: (T, T) -> bool, z: T)
    requires TotalPreorder(le)
    ensures Select(Sort(s, le), TiedWith(le, z)) == Select(s, TiedWith(le, z))
  {
    if s != [] {
      var tied := TiedWith(le, z);
      SortStable(s[1..], le, z);
      TiesCompareOfPreorder(le, z);
      InsertTies(s[0], Sort(s[1..], le), le, z);
      SelectCons(s[0], Sort(s[1..], le), tied);
      assert s == [s[0]] + s[1..];
      SelectCons(s[0], s[1..], tied);
    }
  }

  /** Filtering a sorted sequence leaves it sorted. */
  lemma SelectSorted<T>(s: seq<T>, le: (T, T) -> bool, p: T -> bool)
    requires SortedBy(le, s)
    ensures SortedBy(le, Select(s, p))
  {
    var idx := SelectEmbedding(s, p);
    var r := Select(s, p);
    forall i, j | 0 <= i < j < |r| ensures le(r[i], r[j]) {
      assert r[i] == s[idx[i]] && r[j] == s[idx[j]];
    }
  }
}
