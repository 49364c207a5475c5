/** Count-by-key aggregation as the charts build it:
    `Array.from(d3.group(data, d => d[field]), ([key, values]) => ({ key, count: values.length }))`.
    `d3.group` keeps its keys in first-occurrence order (an insertion-ordered map)
    and `undefined` or `""` are keys like any other; only the group sizes are
    used downstream, so a group is its key and its size. */
module Grouping {
  import opened JsValues
  import opened Seqs
  import opened StableSort

  datatype Group = Group(key: Value, count: nat)

  /** The field's value in each record, in record order. */
  function Column(data: seq<Record>, field: string): seq<Value> {
    seq(|data|, i requires 0 <= i < |data| => Field(data[i], field))
  }

  /** The number of records whose field equals `key`. */
  function CountOf(data: seq<Record>, field: string, key: Value): nat {
    multiset(Column(data, field))[key]
  }

  function Keys(groups: seq<Group>): seq<Value> {
    seq(|groups|, i requires 0 <= i < |groups| => groups[i].key)
  }

  predicate DistinctKeys(groups: seq<Group>) {
    forall i, j :: 0 <= i < j < |groups| ==> groups[i].key != groups[j].key
  }

  function Count(g: Group): nat {
    g.count
  }

  /** `.filter(d => d.key)`: the group's key is truthy. */
  predicate TruthyKey(g: Group) {
    Truthy(g.key)
  }

  function HasTruthyField(field: string): Record -> bool {
    r => Truthy(Field(r, field))
  }

  /** The set of distinct truthy values the field takes in the data. */
  ghost function TruthyValues(data: seq<Record>, field: string): set<Value> {
    set r | r in data && Truthy(Field(r, field)) :: Field(r, field)
  }

  /** The comparator `(a, b) => b.count - a.count`, as "`comparator(a, b) <= 0`". */
  function ByCountDesc(a: Group, b: Group): bool {
    b.count - a.count <= 0
  }

  /** Adds one record with key `k`: bump its group, or open a new group at the end. */
  function AddTo(groups: seq<Group>, k: Value): (r: seq<Group>)
    ensures |groups| <= |r| <= |groups| + 1 && r != []
  {
    if groups == [] then [Group(k, 1)]
    else if groups[0].key == k then [groups[0].(count := groups[0].count + 1)] + groups[1..]
    else [groups[0]] + AddTo(groups[1..], k)
  }

  /** The groups after scanning the records in order. */
  function GroupBy(data: seq<Record>, field: string): (r: seq<Group>)
    ensures |r| <= |data| && (data != [] ==> r != [])
  {
    if data == [] then []
    else AddTo(GroupBy(data[..|data| - 1], field), Field(data[|data| - 1], field))
  }

  /** Adding a record raises the total of the counts by one. */
  lemma {:induction false} AddToTotal(groups: seq<Group>, k: Value)
    ensures Sum(AddTo(groups, k), Count) == Sum(groups, Count) + 1
  {
    if groups != [] {
      var r := AddTo(groups, k);
      if groups[0].key == k {
        assert r[1..] == groups[1..];
      } else {
        AddToTotal(groups[1..], k);
        assert r[1..] == AddTo(groups[1..], k);
      }
    }
  }

  /** Every record is counted in exactly one group: the counts add up to the number of records. */
  lemma {:induction false} GroupByTotal(data: seq<Record>, field: string)
    ensures Sum(GroupBy(data, field), Count) == |data|
  {
    if data != [] {
      GroupByTotal(data[..|data| - 1], field);
      AddToTotal(GroupBy(data[..|data| - 1], field), Field(data[|data| - 1], field));
    }
  }

  lemma KeysCons(g: Group, rest: seq<Group>)
    ensures Keys([g] + rest) == [g.key] + Keys(rest)
  {
  }

  /** A key already present keeps the key order; a new key goes last. */
  lemma {:induction false} AddToKeys(groups: seq<Group>, k: Value)
    ensures Keys(AddTo(groups, k)) == if k in Keys(groups) then Keys(groups) else Keys(groups) + [k]
  {
    if groups != [] {
      var g0, rest := groups[0], groups[1..];
      assert groups == [g0] + rest;
      KeysCons(g0, rest);
      if g0.key != k {
        AddToKeys(rest, k);
        KeysCons(g0, AddTo(rest, k));
      } else {
        KeysCons(g0.(count := g0.count + 1), rest);
      }
    }
  }

  /** Exactly the group of key `k` grows by one. */
  lemma {:induction false} AddToCounts(groups: seq<Group>, k: Value)
    requires DistinctKeys(groups)
    ensures var r := AddTo(groups, k);
      forall i :: 0 <= i < |r| ==>
        r[i].count == (if i < |groups| then groups[i].count else 0) + (if r[i].key == k then 1 else 0)
  {
    if groups != [] {
      var g0, rest := groups[0], groups[1..];
      var r := AddTo(groups, k);
      if g0.key != k {
        AddToCounts(rest, k);
        var rr := AddTo(rest, k);
        assert r == [g0] + rr;
        forall i | 1 <= i < |r|
          ensures r[i].count == (if i < |groups| then groups[i].count else 0) + (if r[i].key == k then 1 else 0)
        {
          assert r[i] == rr[i - 1];
        }
      } else {
        forall i | 1 <= i < |r| ensures r[i] == groups[i] && r[i].key != k {
          assert groups[0].key != groups[i].key;
        }
      }
    }
  }

  lemma AddToDistinct(groups: seq<Group>, k: Value)
    requires DistinctKeys(groups)
    ensures DistinctKeys(AddTo(groups, k))
  {
    AddToKeys(groups, k);
    var r := AddTo(groups, k);
    forall i, j | 0 <= i < j < |r| ensures r[i].key != r[j].key {
      assert r[i].key == Keys(r)[i] && r[j].key == Keys(r)[j];
      if j < |groups| {
        assert Keys(groups)[i] == groups[i].key && Keys(groups)[j] == groups[j].key;
      } else {
        assert Keys(groups)[i] == groups[i].key;
      }
    }
  }

  lemma {:induction false} GroupByKeys(data: seq<Record>, field: string)
    ensures forall k :: k in Keys(GroupBy(data, field)) <==> k in Column(data, field)
  {
    if data != [] {
      var prefix, k := data[..|data| - 1], Field(data[|data| - 1], field);
      GroupByKeys(prefix, field);
      AddToKeys(GroupBy(prefix, field), k);
      assert Column(data, field) == Column(prefix, field) + [k];
    }
  }

  lemma {:induction false} GroupByDistinct(data: seq<Record>, field: string)
    ensures DistinctKeys(GroupBy(data, field))
  {
    if data != [] {
      GroupByDistinct(data[..|data| - 1], field);
      AddToDistinct(GroupBy(data[..|data| - 1], field), Field(data[|data| - 1], field));
    }
  }

  /** Each group counts the occurrences of its key in `col`. */
  ghost predicate CountsMatch(groups: seq<Group>, col: seq<Value>) {
    forall i :: 0 <= i < |groups| ==> groups[i].count == multiset(col)[groups[i].key]
  }

  lemma AddToCountsMatch(groups: seq<Group>, col: seq<Value>, k: Value)
    requires DistinctKeys(groups) && CountsMatch(groups, col)
    requires forall x :: x in Keys(groups) <==> x in col
    ensures CountsMatch(AddTo(groups, k), col + [k])
  {
    AddToCounts(groups, k);
    AddToKeys(groups, k);
    var r := AddTo(groups, k);
    assert multiset(col + [k]) == multiset(col) + multiset{k};
    forall i | 0 <= i < |r| ensures r[i].count == multiset(col + [k])[r[i].key] {
      assert r[i].key == Keys(r)[i];
      if i < |groups| {
        assert r[i].key == Keys(groups)[i] == groups[i].key;
      } else {
        assert r[i].key == k && k !in col;
      }
    }
  }

  lemma {:induction false} GroupByCounts(data: seq<Record>, field: string)
    ensures CountsMatch(GroupBy(data, field), Column(data, field))
  {
    if data != [] {
      var prefix, k := data[..|data| - 1], Field(data[|data| - 1], field);
      GroupByCounts(prefix, field);
      GroupByDistinct(prefix, field);
      GroupByKeys(prefix, field);
      AddToCountsMatch(GroupBy(prefix, field), Column(prefix, field), k);
      assert Column(data, field) == Column(prefix, field) + [k];
    }
  }

  /** Each group's count is the number of records with its key, the keys are
      distinct, and they are exactly the values the field takes. */
  lemma GroupByFaithful(data: seq<Record>, field: string)
    ensures var g := GroupBy(data, field);
      && DistinctKeys(g)
      && (forall i :: 0 <= i < |g| ==> g[i].count == CountOf(data, field, g[i].key))
      && (forall k :: k in Keys(g) <==> k in Column(data, field))
  {
    GroupByKeys(data, field);
    GroupByDistinct(data, field);
    GroupByCounts(data, field);
  }

  /** The first position of `x` in `s`. */
  function FirstIndex(s: seq<Value>, x: Value): (i: nat)
    requires x in s
    ensures i < |s| && s[i] == x && x !in s[..i]
  {
    if s[0] == x then 0 else 1 + FirstIndex(s[1..], x)
  }

  lemma FirstIndexExtend(s: seq<Value>, y: Value, x: Value)
    requires x in s
    ensures FirstIndex(s + [y], x) == FirstIndex(s, x)
  {
    if s[0] != x {
      assert (s + [y])[1..] == s[1..] + [y];
      FirstIndexExtend(s[1..], y, x);
    }
  }

  /** Each key occurs in `col`, and earlier keys occur first earlier. */
  ghost predicate FirstSeenOrdered(keys: seq<Value>, col: seq<Value>) {
    forall i, j :: 0 <= i < j < |keys| ==>
      keys[i] in col && keys[j] in col && FirstIndex(col, keys[i]) < FirstIndex(col, keys[j])
  }

  lemma FirstSeenStep(keys: seq<Value>, col: seq<Value>, k: Value, keys': seq<Value>, col': seq<Value>)
    requires FirstSeenOrdered(keys, col)
    requires forall x :: x in keys <==> x in col
    requires keys' == (if k in col then keys else keys + [k]) && col' == col + [k]
    ensures FirstSeenOrdered(keys', col')
  {
    forall i, j | 0 <= i < j < |keys'|
      ensures keys'[i] in col + [k] && keys'[j] in col + [k]
      ensures FirstIndex(col + [k], keys'[i]) < FirstIndex(col + [k], keys'[j])
    {
      assert keys'[i] == keys[i] && keys[i] in col;
      FirstIndexExtend(col, k, keys[i]);
      if j < |keys| {
        assert keys'[j] == keys[j];
        FirstIndexExtend(col, k, keys[j]);
      } else {
        assert keys'[j] == k && k !in col;
        assert FirstIndex(col + [k], k) == |col|;
      }
    }
  }

  /** One more record: its key is already listed, or it is listed last. */
  lemma GroupByKeysStep(data: seq<Record>, field: string)
    requires data != []
    ensures var prefix, k := data[..|data| - 1], Field(data[|data| - 1], field);
      && Keys(GroupBy(data, field))
         == (if k in Column(prefix, field) then Keys(GroupBy(prefix, field)) else Keys(GroupBy(prefix, field)) + [k])
      && Column(data, field) == Column(prefix, field) + [k]
  {
    var prefix, k := data[..|data| - 1], Field(data[|data| - 1], field);
    GroupByKeys(prefix, field);
    AddToKeys(GroupBy(prefix, field), k);
    assert k in Keys(GroupBy(prefix, field)) <==> k in Column(prefix, field);
  }

  /** Groups come in the order their keys first occur in the data. */
  lemma {:induction false} GroupByFirstSeenOrder(data: seq<Record>, field: string)
    ensures FirstSeenOrdered(Keys(GroupBy(data, field)), Column(data, field))
  {
    if data != [] {
      var prefix, k := data[..|data| - 1], Field(data[|data| - 1], field);
      GroupByFirstSeenOrder(prefix, field);
      GroupByKeys(prefix, field);
      GroupByKeysStep(data, field);
      FirstSeenStep(Keys(GroupBy(prefix, field)), Column(prefix, field), k,
                    Keys(GroupBy(data, field)), Column(data, field));
    }
  }

  lemma {:induction false} AddToTruthySum(groups: seq<Group>, k: Value)
    ensures Sum(Select(AddTo(groups, k), TruthyKey), Count)
         == Sum(Select(groups, TruthyKey), Count) + (if Truthy(k) then 1 else 0)
  {
    if groups != [] {
      var g, rest := groups[0], groups[1..];
      assert groups == [g] + rest;
      SelectCons(g, rest, TruthyKey);
      SumAppend(if TruthyKey(g) then [g] else [], Select(rest, TruthyKey), Count);
      if g.key == k {
        var g' := g.(count := g.count + 1);
        SelectCons(g', rest, TruthyKey);
        SumAppend(if TruthyKey(g') then [g'] else [], Select(rest, TruthyKey), Count);
      } else {
        AddToTruthySum(rest, k);
        SelectCons(g, AddTo(rest, k), TruthyKey);
        SumAppend(if TruthyKey(g) then [g] else [], Select(AddTo(rest, k), TruthyKey), Count);
      }
    }
  }

  /** The counts of the truthy-keyed groups add up to the number of records whose
      field is truthy. */
  lemma {:induction false} GroupByTruthyTotal(data: seq<Record>, field: string)
    ensures Sum(Select(GroupBy(data, field), TruthyKey), Count) == |Select(data, HasTruthyField(field))|
  {
    if data != [] {
      var prefix, last := data[..|data| - 1], data[|data| - 1];
      GroupByTruthyTotal(prefix, field);
      AddToTruthySum(GroupBy(prefix, field), Field(last, field));
      assert data == prefix + [last];
      SelectAppend(prefix, [last], HasTruthyField(field));
    }
  }

  lemma ByCountDescConsistent()
    ensures TotalPreorder(ByCountDesc)
  {
  }

  lemma DistinctKeysNoDup(s: seq<Group>)
    requires DistinctKeys(s)
    ensures NoDup(s)
  {
  }

  lemma {:induction false} DistinctKeysCard(s: seq<Group>)
    requires DistinctKeys(s)
    ensures |set g | g in s :: g.key| == |s|
  {
    if s != [] {
      var rest := s[1..];
      DistinctKeysCard(rest);
      var all, tail := set g | g in s :: g.key, set g | g in rest :: g.key;
      assert all == {s[0].key} + tail by {
        forall v | v in all ensures v in {s[0].key} + tail {
          var g :| g in s && g.key == v;
          var i :| 0 <= i < |s| && s[i] == g;
          if i > 0 {
            assert rest[i - 1] == g;
          }
        }
      }
      assert s[0].key !in tail;
    }
  }

  /** Every group of a reordering of the truthy-keyed groups has a truthy key and
      counts the records that carry it. */
  lemma CountsSound(s: seq<Group>, data: seq<Record>, field: string)
    requires multiset(s) == multiset(Select(GroupBy(data, field), TruthyKey))
    ensures forall g :: g in s ==> Truthy(g.key) && g.key in Column(data, field)
    ensures forall g :: g in s ==> g.count == CountOf(data, field, g.key) && g.count > 0
  {
    var groups := GroupBy(data, field);
    GroupByFaithful(data, field);
    forall g | g in s ensures g in groups && Truthy(g.key) {
      assert g in multiset(Select(groups, TruthyKey));
    }
    forall g | g in s ensures g.key in Column(data, field) && g.count == CountOf(data, field, g.key) {
      var a :| 0 <= a < |groups| && groups[a] == g;
      assert Keys(groups)[a] == g.key;
    }
  }

  lemma CountsDistinct(s: seq<Group>, data: seq<Record>, field: string)
    requires multiset(s) == multiset(Select(GroupBy(data, field), TruthyKey))
    ensures DistinctKeys(s)
  {
    var groups := GroupBy(data, field);
    var t := Select(groups, TruthyKey);
    GroupByFaithful(data, field);
    DistinctKeysNoDup(groups);
    SelectNoDup(groups, TruthyKey);
    NoDupPermutation(t, s);
    forall i, j | 0 <= i < j < |s| ensures s[i].key != s[j].key {
      assert s[i] in multiset(t) && s[j] in multiset(t);
      assert s[i] in groups && s[j] in groups;
      assert s[i] != s[j];
    }
  }

  lemma KeyHasGroup(data: seq<Record>, field: string, v: Value) returns (a: nat)
    requires v in Column(data, field)
    ensures a < |GroupBy(data, field)| && GroupBy(data, field)[a].key == v
  {
    GroupByFaithful(data, field);
    var groups := GroupBy(data, field);
    assert v in Keys(groups);
    a :| 0 <= a < |groups| && Keys(groups)[a] == v;
  }

  lemma CountsComplete(s: seq<Group>, data: seq<Record>, field: string)
    requires multiset(s) == multiset(Select(GroupBy(data, field), TruthyKey))
    ensures forall r :: r in data && Truthy(Field(r, field)) ==> Field(r, field) in Keys(s)
  {
    var groups := GroupBy(data, field);
    forall r | r in data && Truthy(Field(r, field)) ensures Field(r, field) in Keys(s) {
      var i :| 0 <= i < |data| && data[i] == r;
      assert Column(data, field)[i] == Field(r, field);
      var a := KeyHasGroup(data, field, Field(r, field));
      SelectMember(groups, TruthyKey, groups[a]);
      assert groups[a] in multiset(s);
      var b :| 0 <= b < |s| && s[b] == groups[a];
      assert Keys(s)[b] == Field(r, field);
    }
  }

  /** Any reordering of the truthy-keyed groups lists each truthy value of the field
      exactly once, with the number of records that carry it. */
  lemma CountsFaithful(s: seq<Group>, data: seq<Record>, field: string)
    requires multiset(s) == multiset(Select(GroupBy(data, field), TruthyKey))
    ensures DistinctKeys(s)
    ensures forall g :: g in s ==> Truthy(g.key) && g.count == CountOf(data, field, g.key) && g.count > 0
    ensures forall r :: r in data && Truthy(Field(r, field)) ==> Field(r, field) in Keys(s)
    ensures |s| == |TruthyValues(data, field)|
  {
    CountsSound(s, data, field);
    CountsDistinct(s, data, field);
    CountsComplete(s, data, field);
    DistinctKeysCard(s);
    CountsKeySet(s, data, field);
  }

  /** The keys of the truthy-keyed groups are exactly the field's truthy values. */
  lemma CountsKeySet(s: seq<Group>, data: seq<Record>, field: string)
    requires multiset(s) == multiset(Select(GroupBy(data, field), TruthyKey))
    ensures (set g | g in s :: g.key) == TruthyValues(data, field)
  {
    CountsSound(s, data, field);
    CountsComplete(s, data, field);
    KeysCoverTruthy(s, data, field);
    KeysAreTruthyValues(s, data, field);
  }

  /** Groups whose keys include every truthy field value have all of them as keys. */
  lemma KeysCoverTruthy(s: seq<Group>, data: seq<Record>, field: string)
    requires forall r :: r in data && Truthy(Field(r, field)) ==> Field(r, field) in Keys(s)
    ensures TruthyValues(data, field) <= (set g | g in s :: g.key)
  {
    forall v | v in TruthyValues(data, field) ensures v in (set g | g in s :: g.key) {
      var r :| r in data && Truthy(Field(r, field)) && Field(r, field) == v;
      var b :| 0 <= b < |s| && Keys(s)[b] == v;
      assert s[b] in s;
    }
  }

  /** Groups keyed by truthy values of the column have only truthy field values as keys. */
  lemma KeysAreTruthyValues(s: seq<Group>, data: seq<Record>, field: string)
    requires forall g :: g in s ==> Truthy(g.key) && g.key in Column(data, field)
    ensures (set g | g in s :: g.key) <= TruthyValues(data, field)
  {
    forall v | v in (set g | g in s :: g.key) ensures v in TruthyValues(data, field) {
      var g :| g in s && g.key == v;
      var i :| 0 <= i < |data| && Column(data, field)[i] == v;
      assert data[i] in data;
    }
  }
}
