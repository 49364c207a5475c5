/** The country bar chart's data step: events counted per country, ranked by
    count, records without a country dropped, and one page of the ranking shown. */
module BarGraph {
  import opened JsValues
  import opened Seqs
  import opened StableSort
  import opened Grouping

  const Country := "country"

  /** `resultRange`: the page of the ranking shown, as slice bounds. */
  datatype Range = Range(st: int, lt: int)

  /** The initial page: the first ten countries. */
  const DefaultRange := Range(0, 10)

  /** What the chart draws (`aggregatedData`) and `totalCountryCount`. */
  datatype BarData = BarData(shown: seq<Group>, totalCountryCount: nat)

  /** A relative index clamped into `[0, len]`; negative indices count from the end
      (Array.prototype.slice, section 23.1.3.28 of ECMA-262). */
  function ClampIndex(rel: int, len: nat): (k: nat)
    ensures k <= len
    ensures 0 <= rel ==> k == if rel < len then rel else len
    ensures rel < 0 ==> k == if len + rel < 0 then 0 else len + rel
  {
    if rel < 0 then (if len + rel < 0 then 0 else len + rel)
    else if rel < len then rel
    else len
  }

  /** `Array.prototype.slice(start, end)`. */
  function Slice<T>(s: seq<T>, start: int, end: int): (r: seq<T>)
    ensures |r| <= |s|
    ensures forall x :: x in r ==> x in s
  {
    var from, to := ClampIndex(start, |s|), ClampIndex(end, |s|);
    if from < to then s[from..to] else []
  }

  /** Countries by descending count; equal counts keep first-seen order; a falsy
      country is dropped after the sort. */
  function Ranked(data: seq<Record>): seq<Group> {
    Select(Sort(GroupBy(data, Country), ByCountDesc), TruthyKey)
  }

  /** The effect's computation: the count of ranked countries and the page shown. */
  function Aggregate(data: seq<Record>, range: Range): (r: BarData)
    ensures |r.shown| <= r.totalCountryCount
    ensures forall g :: g in r.shown ==> g in Ranked(data) && Truthy(g.key)
  {
    var ranked := Ranked(data);
    BarData(Slice(ranked, range.st, range.lt), |ranked|)
  }

  lemma RankedIsPermutation(data: seq<Record>)
    ensures multiset(Ranked(data)) == multiset(Select(GroupBy(data, Country), TruthyKey))
  {
    var groups := GroupBy(data, Country);
    SelectPermutation(Sort(groups, ByCountDesc), groups, TruthyKey);
  }

  /** Each ranked entry is a distinct truthy country with the number of records
      that name it, and every country that occurs is ranked. */
  lemma RankedCountsFaithful(data: seq<Record>)
    ensures DistinctKeys(Ranked(data))
    ensures forall g :: g in Ranked(data) ==>
      Truthy(g.key) && g.count == CountOf(data, Country, g.key) && g.count > 0
    ensures forall r :: r in data && Truthy(Field(r, Country)) ==> Field(r, Country) in Keys(Ranked(data))
  {
    RankedIsPermutation(data);
    CountsFaithful(Ranked(data), data, Country);
  }

  /** Larger counts come first. */
  lemma RankedDescending(data: seq<Record>)
    ensures forall i, j :: 0 <= i < j < |Ranked(data)| ==> Ranked(data)[i].count >= Ranked(data)[j].count
  {
    ByCountDescConsistent();
    var sorted := Sort(GroupBy(data, Country), ByCountDesc);
    SortSorted(GroupBy(data, Country), ByCountDesc);
    SelectSorted(sorted, ByCountDesc, TruthyKey);
    var r := Ranked(data);
    forall i, j | 0 <= i < j < |r| ensures r[i].count >= r[j].count {
      assert ByCountDesc(r[i], r[j]);
    }
  }

  /** Countries with the same count stay in the order they first occur in the
      data (the groups' order, which is first-seen order). */
  lemma RankedTiesInFirstSeenOrder(data: seq<Record>, z: Group)
    ensures Select(Ranked(data), TiedWith(ByCountDesc, z))
         == Select(Select(GroupBy(data, Country), TruthyKey), TiedWith(ByCountDesc, z))
    ensures FirstSeenOrdered(Keys(GroupBy(data, Country)), Column(data, Country))
  {
    ByCountDescConsistent();
    var groups := GroupBy(data, Country);
    var tied := TiedWith(ByCountDesc, z);
    SelectCommute(Sort(groups, ByCountDesc), TruthyKey, tied);
    SortStable(groups, ByCountDesc, z);
    SelectCommute(groups, tied, TruthyKey);
    GroupByFirstSeenOrder(data, Country);
  }

  /** `totalCountryCount` is the number of distinct truthy countries in the data. */
  lemma TotalCountsDistinctCountries(data: seq<Record>, range: Range)
    ensures Aggregate(data, range).totalCountryCount == |TruthyValues(data, Country)|
  {
    RankedIsPermutation(data);
    CountsFaithful(Ranked(data), data, Country);
  }

  /** The ranked counts add up to the number of records that name a country. */
  lemma RankedTotal(data: seq<Record>)
    ensures Sum(Ranked(data), Count) == |Select(data, HasTruthyField(Country))|
  {
    RankedIsPermutation(data);
    SumPermutation(Ranked(data), Select(GroupBy(data, Country), TruthyKey), Count);
    GroupByTruthyTotal(data, Country);
  }

  /** How many of the entries `st` up to (not including) `lt` exist in a list of
      `len` entries: none when the range is empty or starts past the end. */
  function PageLength(len: nat, st: nat, lt: nat): (n: nat)
    ensures n <= len && (st <= lt ==> n <= lt - st)
    ensures st < len && st < lt ==> n > 0
  {
    if st < lt && st < len then (if lt < len then lt else len) - st else 0
  }

  /** For non-negative bounds, a slice holds entries `st` up to (not including)
      `lt`, as far as they exist. */
  lemma SliceNonNegative<T>(s: seq<T>, st: int, lt: int)
    requires 0 <= st && 0 <= lt
    ensures |Slice(s, st, lt)| == PageLength(|s|, st, lt)
    ensures forall i :: 0 <= i < |Slice(s, st, lt)| ==> st + i < |s| && Slice(s, st, lt)[i] == s[st + i]
  {
    var from, to := ClampIndex(st, |s|), ClampIndex(lt, |s|);
    assert from == (if st < |s| then st else |s|);
    assert to == (if lt < |s| then lt else |s|);
  }

  /** For non-negative bounds, the chart shows the ranking's entries `st` up to
      (not including) `lt`, as far as they exist. */
  lemma ShownPage(data: seq<Record>, range: Range)
    requires 0 <= range.st && 0 <= range.lt
    ensures var ranked, shown := Ranked(data), Aggregate(data, range).shown;
      && |shown| == PageLength(|ranked|, range.st, range.lt)
      && forall i :: 0 <= i < |shown| ==> range.st + i < |ranked| && shown[i] == ranked[range.st + i]
  {
    SliceNonNegative(Ranked(data), range.st, range.lt);
  }

  /** Initially the ten highest-ranked countries are shown, or all if fewer. */
  lemma DefaultPageIsTopTen(data: seq<Record>)
    ensures var ranked := Ranked(data);
      Aggregate(data, DefaultRange).shown == ranked[..if |ranked| < 10 then |ranked| else 10]
  {
  }

  /** Consecutive pages tile the ranking: nothing is skipped or shown twice. */
  lemma PagesTile<T>(s: seq<T>, a: int, b: int, c: int)
    requires 0 <= a <= b <= c
    ensures Slice(s, a, b) + Slice(s, b, c) == Slice(s, a, c)
  {
  }
}
