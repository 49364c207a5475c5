/** The topic pie chart's data step: events counted per topic, the largest
    `topDataToShow` topics kept, and the rest folded into one "others" slice. */
module PieChart {
  import opened JsValues
  import opened Seqs
  import opened StableSort
  import opened Grouping

  const Topic := "topic"
  const Others := "others"

  /** `topDataToShow`'s initial value. */
  const DefaultTop := 8

  /** Topics with a truthy name by descending count, ties in first-seen order. */
  function Ranked(data: seq<Record>): seq<Group> {
    Sort(Select(GroupBy(data, Topic), TruthyKey), ByCountDesc)
  }

  /** The number of ranked topics shown as slices of their own. */
  function Shown(data: seq<Record>, topDataToShow: nat): nat {
    var n := |Ranked(data)|;
    if topDataToShow < n then topDataToShow else n
  }

  /** The slice that stands for every topic past the first `topDataToShow`. */
  function OthersSlice(data: seq<Record>, topDataToShow: nat): Group {
    Group(Str(Others), Sum(Ranked(data)[Shown(data, topDataToShow)..], Count))
  }

  /** The slices drawn: the shown topics and "others", sorted by descending count. */
  function Slices(data: seq<Record>, topDataToShow: nat): seq<Group> {
    Sort(Ranked(data)[..Shown(data, topDataToShow)] + [OthersSlice(data, topDataToShow)], ByCountDesc)
  }

  /** The effect's computation: the slices drawn and `totalCount`. */
  method Aggregate(data: seq<Record>, topDataToShow: nat) returns (slices: seq<Group>, totalCount: nat)
    ensures totalCount == |Select(data, HasTruthyField(Topic))|
    ensures Sum(slices, Count) == totalCount
    ensures var k := Shown(data, topDataToShow);
      |slices| == k + 1 &&
      multiset(slices) == multiset(Ranked(data)[..k]) + multiset{OthersSlice(data, topDataToShow)}
    ensures forall i, j :: 0 <= i < j < |slices| ==> slices[i].count >= slices[j].count
    ensures var others, k := OthersSlice(data, topDataToShow), Shown(data, topDataToShow);
      Select(slices, TiedWith(ByCountDesc, others)) == Select(Ranked(data)[..k], TiedWith(ByCountDesc, others)) + [others]
    ensures var others, k := OthersSlice(data, topDataToShow), Shown(data, topDataToShow);
      forall z :: Select(slices, TiedWith(ByCountDesc, z)) == Select(Ranked(data)[..k] + [others], TiedWith(ByCountDesc, z))
  {
    var aggregatedData := GroupBy(data, Topic);
    aggregatedData := Select(aggregatedData, TruthyKey);
    totalCount := Sum(aggregatedData, Count);

    // `aggregatedData.sort(...)` sorts in place, so the later slice sees the sorted order.
    aggregatedData := Sort(aggregatedData, ByCountDesc);
    var k := if topDataToShow < |aggregatedData| then topDataToShow else |aggregatedData|;
    var topAggregatedData := aggregatedData[..k];
    var others := Group(Str(Others), Sum(aggregatedData[k..], Count));
    topAggregatedData := topAggregatedData + [others];
    slices := Sort(topAggregatedData, ByCountDesc);

    assert slices == Slices(data, topDataToShow);
    GroupByTruthyTotal(data, Topic);
    SlicesTotal(data, topDataToShow);
    SlicesContents(data, topDataToShow);
    SlicesDescending(data, topDataToShow);
    SlicesTies(data, topDataToShow);
    OthersFollowsItsTies(data, topDataToShow);
  }

  /** The slices add up to the number of records with a truthy topic. */
  lemma SlicesTotal(data: seq<Record>, topDataToShow: nat)
    ensures Sum(Slices(data, topDataToShow), Count) == |Select(data, HasTruthyField(Topic))|
  {
    RankedSum(data);
    OthersHoldsTheRest(data, topDataToShow);
    SlicesSum(data, topDataToShow);
  }

  /** The ranked counts add up to the number of records with a truthy topic. */
  lemma RankedSum(data: seq<Record>)
    ensures Sum(Ranked(data), Count) == |Select(data, HasTruthyField(Topic))|
  {
    GroupByTruthyTotal(data, Topic);
    SumPermutation(Ranked(data), Select(GroupBy(data, Topic), TruthyKey), Count);
  }

  /** "others" holds the total of every ranked topic past the shown ones. */
  lemma OthersHoldsTheRest(data: seq<Record>, topDataToShow: nat)
    ensures Sum(Ranked(data), Count)
         == Sum(Ranked(data)[..Shown(data, topDataToShow)], Count) + OthersSlice(data, topDataToShow).count
  {
    var ranked, k := Ranked(data), Shown(data, topDataToShow);
    assert ranked == ranked[..k] + ranked[k..];
    SumAppend(ranked[..k], ranked[k..], Count);
  }

  /** Sorting the slices does not change their total. */
  lemma SlicesSum(data: seq<Record>, topDataToShow: nat)
    ensures Sum(Slices(data, topDataToShow), Count)
         == Sum(Ranked(data)[..Shown(data, topDataToShow)], Count) + OthersSlice(data, topDataToShow).count
  {
    var top, others := Ranked(data)[..Shown(data, topDataToShow)], OthersSlice(data, topDataToShow);
    SumPermutation(Slices(data, topDataToShow), top + [others], Count);
    SumAppend(top, [others], Count);
    assert Sum([others], Count) == others.count;
  }

  /** The slices are the shown topics and "others", each once. */
  lemma SlicesContents(data: seq<Record>, topDataToShow: nat)
    ensures var s, k := Slices(data, topDataToShow), Shown(data, topDataToShow);
      |s| == k + 1 && multiset(s) == multiset(Ranked(data)[..k]) + multiset{OthersSlice(data, topDataToShow)}
  {
    var top := Ranked(data)[..Shown(data, topDataToShow)] + [OthersSlice(data, topDataToShow)];
    assert |multiset(Slices(data, topDataToShow))| == |multiset(top)|;
  }

  /** The slice counts are non-increasing. */
  lemma SlicesDescending(data: seq<Record>, topDataToShow: nat)
    ensures var s := Slices(data, topDataToShow);
      forall i, j :: 0 <= i < j < |s| ==> s[i].count >= s[j].count
  {
    ByCountDescConsistent();
    var top := Ranked(data)[..Shown(data, topDataToShow)] + [OthersSlice(data, topDataToShow)];
    SortSorted(top, ByCountDesc);
    var s := Slices(data, topDataToShow);
    forall i, j | 0 <= i < j < |s| ensures s[i].count >= s[j].count {
      assert ByCountDesc(s[i], s[j]);
    }
  }

  /** Slices with equal counts keep the order they have in the shown topics followed by "others". */
  lemma SlicesTies(data: seq<Record>, topDataToShow: nat)
    ensures var top := Ranked(data)[..Shown(data, topDataToShow)] + [OthersSlice(data, topDataToShow)];
      forall z :: Select(Slices(data, topDataToShow), TiedWith(ByCountDesc, z)) == Select(top, TiedWith(ByCountDesc, z))
  {
    ByCountDescConsistent();
    var top := Ranked(data)[..Shown(data, topDataToShow)] + [OthersSlice(data, topDataToShow)];
    forall z ensures Select(Sort(top, ByCountDesc), TiedWith(ByCountDesc, z)) == Select(top, TiedWith(ByCountDesc, z)) {
      SortStable(top, ByCountDesc, z);
    }
  }

  /** "others" comes after every shown topic with the same count. */
  lemma OthersFollowsItsTies(data: seq<Record>, topDataToShow: nat)
    ensures var others, k := OthersSlice(data, topDataToShow), Shown(data, topDataToShow);
      Select(Slices(data, topDataToShow), TiedWith(ByCountDesc, others))
        == Select(Ranked(data)[..k], TiedWith(ByCountDesc, others)) + [others]
  {
    var others, k := OthersSlice(data, topDataToShow), Shown(data, topDataToShow);
    var tied := TiedWith(ByCountDesc, others);
    ByCountDescConsistent();
    SortStable(Ranked(data)[..k] + [others], ByCountDesc, others);
    SelectAppend(Ranked(data)[..k], [others], tied);
    assert tied(others);
    assert Select([others], tied) == [others];
  }

  /** The ranked topics are the distinct truthy topics, each with the number of
      records that name it, and every topic that occurs is ranked. */
  lemma RankedCountsFaithful(data: seq<Record>)
    ensures DistinctKeys(Ranked(data))
    ensures forall g :: g in Ranked(data) ==>
      Truthy(g.key) && g.count == CountOf(data, Topic, g.key) && g.count > 0
    ensures forall r :: r in data && Truthy(Field(r, Topic)) ==> Field(r, Topic) in Keys(Ranked(data))
  {
    CountsFaithful(Ranked(data), data, Topic);
  }

  /** Topics with equal counts keep the groups' order, and the groups come in the
      order their topics first occur in the data. */
  lemma RankedTiesInFirstSeenOrder(data: seq<Record>, z: Group)
    ensures Select(Ranked(data), TiedWith(ByCountDesc, z))
         == Select(Select(GroupBy(data, Topic), TruthyKey), TiedWith(ByCountDesc, z))
    ensures FirstSeenOrdered(Keys(GroupBy(data, Topic)), Column(data, Topic))
  {
    ByCountDescConsistent();
    SortStable(Select(GroupBy(data, Topic), TruthyKey), ByCountDesc, z);
    GroupByFirstSeenOrder(data, Topic);
  }

  /** Every topic with its own slice has at least the count of every topic
      folded into "others". */
  lemma ShownOutrankFolded(data: seq<Record>, topDataToShow: nat)
    ensures var ranked, k := Ranked(data), Shown(data, topDataToShow);
      forall i, j :: 0 <= i < k <= j < |ranked| ==> ranked[i].count >= ranked[j].count
  {
    ByCountDescConsistent();
    SortSorted(Select(GroupBy(data, Topic), TruthyKey), ByCountDesc);
    var ranked, k := Ranked(data), Shown(data, topDataToShow);
    forall i, j | 0 <= i < k <= j < |ranked| ensures ranked[i].count >= ranked[j].count {
      assert ByCountDesc(ranked[i], ranked[j]);
    }
  }

  /** With the initial `topDataToShow`, the chart has at most nine slices: eight topics
      and "others"; exactly nine when there are more than eight topics. */
  lemma DefaultAtMostNineSlices(data: seq<Record>)
    ensures |Slices(data, DefaultTop)| <= DefaultTop + 1
    ensures |Ranked(data)| > DefaultTop ==> |Slices(data, DefaultTop)| == DefaultTop + 1
  {
    SlicesContents(data, DefaultTop);
  }

  /** With no more topics than `topDataToShow`, "others" is an empty slice. */
  lemma FewTopicsEmptyOthers(data: seq<Record>, topDataToShow: nat)
    requires |Ranked(data)| <= topDataToShow
    ensures OthersSlice(data, topDataToShow).count == 0
  {
  }
}
