/** The filter panel (frontend/src/components/filter.jsx): the criteria builder
    that lists the distinct values of each filterable field, the radio and
    checkbox updaters of the applied filter, and the initial all-empty filter.
    React state is explicit here: each effect or handler is a call on a value. */
module FilterPanel {
  import opened JsValues
  import opened Seqs
  import opened StableSort
  import opened ValueSort
  import opened RecordFilter
  import Grouping

  /** The keys of `FILTERS`, in declaration order. */
  const Fields: seq<string> := ["end_year", "topic", "sector", "region", "pestle", "source", "country", "city"]

  /** `FILTERS`: every field with an empty list; the initial criteria and applied filter. */
  const Initial: Filters := map["end_year" := [], "topic" := [], "sector" := [], "region" := [],
                                "pestle" := [], "source" := [], "country" := [], "city" := []]

  /** `if (v && !list.includes(v)) list.push(v)`. */
  function PushIfNew(list: seq<Value>, v: Value): seq<Value> {
    if Truthy(v) && v !in list then list + [v] else list
  }

  /** The list the scan builds for one field: each truthy value of that field is
      pushed the first time it is seen. */
  function Distinct(data: seq<Record>, key: string): seq<Value> {
    if data == [] then []
    else PushIfNew(Distinct(data[..|data| - 1], key), Field(data[|data| - 1], key))
  }

  /** One more record of the scan: its field values are pushed if new. */
  lemma DistinctStep(data: seq<Record>, i: nat, key: string)
    requires i < |data|
    ensures Distinct(data[..i + 1], key) == PushIfNew(Distinct(data[..i], key), Field(data[i], key))
  {
    assert data[..i + 1][..i] == data[..i];
  }

  /** The scan yields the distinct truthy values of the field: no duplicates, only
      values some record has there, and every truthy value any record has there. */
  lemma {:induction false} DistinctFaithful(data: seq<Record>, key: string)
    ensures var vals := Distinct(data, key);
      && NoDup(vals)
      && (forall v :: v in vals ==> Truthy(v) && exists r :: r in data && Field(r, key) == v)
      && (forall r :: r in data && Truthy(Field(r, key)) ==> Field(r, key) in vals)
  {
    if data != [] {
      var prefix, last := data[..|data| - 1], data[|data| - 1];
      assert data == prefix + [last];
      DistinctFaithful(prefix, key);
      var vals := Distinct(data, key);
      forall v | v in vals ensures Truthy(v) && exists r :: r in data && Field(r, key) == v {
        if v !in Distinct(prefix, key) {
          assert Field(last, key) == v;
        }
      }
    }
  }

  /** Every value the scan lists occurs in the field's column. */
  lemma DistinctInColumn(data: seq<Record>, key: string)
    ensures forall v :: v in Distinct(data, key) ==> v in Grouping.Column(data, key)
  {
    DistinctFaithful(data, key);
    forall v | v in Distinct(data, key) ensures v in Grouping.Column(data, key) {
      var r :| r in data && Field(r, key) == v;
      var i :| 0 <= i < |data| && data[i] == r;
      assert Grouping.Column(data, key)[i] == v;
    }
  }

  /** The scan lists the field's truthy values in the order they are first seen:
      exactly the truthy keys of `d3.group` over the same field, in the same order. */
  lemma {:induction false} DistinctIsTruthyGroupKeys(data: seq<Record>, key: string)
    ensures Distinct(data, key) == Select(Grouping.Keys(Grouping.GroupBy(data, key)), Truthy)
  {
    if data != [] {
      var prefix, k := data[..|data| - 1], Field(data[|data| - 1], key);
      var keys := Grouping.Keys(Grouping.GroupBy(prefix, key));
      DistinctIsTruthyGroupKeys(prefix, key);
      Grouping.GroupByKeysStep(data, key);
      if k in Grouping.Column(prefix, key) {
        if Truthy(k) {
          var i :| 0 <= i < |prefix| && Grouping.Column(prefix, key)[i] == k;
          assert prefix[i] in prefix;
          DistinctFaithful(prefix, key);
        }
      } else {
        DistinctInColumn(prefix, key);
        SelectAppend(keys, [k], Truthy);
        assert Select([k], Truthy) == if Truthy(k) then [k] else [];
      }
    }
  }

  /** Sorting as the effect does: `end_year` numerically, the others with the defaults
      (`"string"`, case-sensitive). */
  function SortField(vals: seq<Value>, key: string,
                     localeCompare: (string, string) -> int, lower: string -> string): seq<Value>
  {
    if key == EndYear then SortArray(ArrayOf(vals), "number", false, localeCompare, lower)
    else SortArray(ArrayOf(vals), DefaultType, false, localeCompare, lower)
  }

  /** The criteria list the effect stores for one field. */
  function CriteriaList(data: seq<Record>, key: string,
                        localeCompare: (string, string) -> int, lower: string -> string): seq<Value>
  {
    SortField(Distinct(data, key), key, localeCompare, lower)
  }

  /** The object literal `{ end_year, topic, sector, region, pestle, source, country, city }`. */
  function Pack(endYears: seq<Value>, topics: seq<Value>, sectors: seq<Value>, regions: seq<Value>,
                pestles: seq<Value>, sources: seq<Value>, countries: seq<Value>, cities: seq<Value>): Filters
  {
    map["end_year" := endYears, "topic" := topics, "sector" := sectors, "region" := regions,
        "pestle" := pestles, "source" := sources, "country" := countries, "city" := cities]
  }

  lemma PackLookup(endYears: seq<Value>, topics: seq<Value>, sectors: seq<Value>, regions: seq<Value>,
                   pestles: seq<Value>, sources: seq<Value>, countries: seq<Value>, cities: seq<Value>)
    ensures var m := Pack(endYears, topics, sectors, regions, pestles, sources, countries, cities);
      && (forall key :: key in Fields ==> key in m)
      && m["end_year"] == endYears && m["topic"] == topics && m["sector"] == sectors
      && m["region"] == regions && m["pestle"] == pestles && m["source"] == sources
      && m["country"] == countries && m["city"] == cities
  {
  }

  /** The criteria the effect stores: each field's scanned list, sorted;
      `data?.forEach` makes a null `data` scan nothing. */
  function Criteria(data: Option<seq<Record>>,
                    localeCompare: (string, string) -> int, lower: string -> string): Filters
  {
    var d := if data.Some? then data.value else [];
    Pack(CriteriaList(d, "end_year", localeCompare, lower), CriteriaList(d, "topic", localeCompare, lower),
         CriteriaList(d, "sector", localeCompare, lower), CriteriaList(d, "region", localeCompare, lower),
         CriteriaList(d, "pestle", localeCompare, lower), CriteriaList(d, "source", localeCompare, lower),
         CriteriaList(d, "country", localeCompare, lower), CriteriaList(d, "city", localeCompare, lower))
  }

  lemma CriteriaLookup(data: Option<seq<Record>>, key: string,
                       localeCompare: (string, string) -> int, lower: string -> string)
    requires key in Fields
    ensures key in Criteria(data, localeCompare, lower)
    ensures Criteria(data, localeCompare, lower)[key]
         == CriteriaList(if data.Some? then data.value else [], key, localeCompare, lower)
  {
    var d := if data.Some? then data.value else [];
    PackLookup(CriteriaList(d, "end_year", localeCompare, lower), CriteriaList(d, "topic", localeCompare, lower),
               CriteriaList(d, "sector", localeCompare, lower), CriteriaList(d, "region", localeCompare, lower),
               CriteriaList(d, "pestle", localeCompare, lower), CriteriaList(d, "source", localeCompare, lower),
               CriteriaList(d, "country", localeCompare, lower), CriteriaList(d, "city", localeCompare, lower));
    assert key == "end_year" || key == "topic" || key == "sector" || key == "region" ||
           key == "pestle" || key == "source" || key == "country" || key == "city";
  }

  /** The criteria-building effect: one pass over the records pushing each new truthy
      value onto its field's list, then each list through `sortArray`. */
  method BuildCriteria(data: Option<seq<Record>>,
                       localeCompare: (string, string) -> int, lower: string -> string)
    returns (criteria: Filters)
    ensures criteria == Criteria(data, localeCompare, lower)
  {
    var endYears, topics, sectors, regions, pestles, sources, countries, cities := [], [], [], [], [], [], [], [];
    var d := if data.Some? then data.value else [];
    var i := 0;
    while i < |d|
      invariant 0 <= i <= |d|
      invariant endYears == Distinct(d[..i], "end_year")
      invariant topics == Distinct(d[..i], "topic")
      invariant sectors == Distinct(d[..i], "sector")
      invariant regions == Distinct(d[..i], "region")
      invariant pestles == Distinct(d[..i], "pestle")
      invariant sources == Distinct(d[..i], "source")
      invariant countries == Distinct(d[..i], "country")
      invariant cities == Distinct(d[..i], "city")
    {
      var item := d[i];
      DistinctStep(d, i, "end_year");
      DistinctStep(d, i, "topic");
      DistinctStep(d, i, "sector");
      DistinctStep(d, i, "region");
      DistinctStep(d, i, "pestle");
      DistinctStep(d, i, "source");
      DistinctStep(d, i, "country");
      DistinctStep(d, i, "city");
      endYears := PushIfNew(endYears, Field(item, "end_year"));
      topics := PushIfNew(topics, Field(item, "topic"));
      sectors := PushIfNew(sectors, Field(item, "sector"));
      regions := PushIfNew(regions, Field(item, "region"));
      sources := PushIfNew(sources, Field(item, "source"));
      countries := PushIfNew(countries, Field(item, "country"));
      pestles := PushIfNew(pestles, Field(item, "pestle"));
      cities := PushIfNew(cities, Field(item, "city"));
      i := i + 1;
    }
    assert d[..i] == d;
    criteria := Pack(SortField(endYears, "end_year", localeCompare, lower),
                     SortField(topics, "topic", localeCompare, lower),
                     SortField(sectors, "sector", localeCompare, lower),
                     SortField(regions, "region", localeCompare, lower),
                     SortField(pestles, "pestle", localeCompare, lower),
                     SortField(sources, "source", localeCompare, lower),
                     SortField(countries, "country", localeCompare, lower),
                     SortField(cities, "city", localeCompare, lower));
  }

  /** The sorted list of a field holds exactly the distinct truthy values, each once. */
  lemma SortFieldFaithful(vals: seq<Value>, key: string,
                          localeCompare: (string, string) -> int, lower: string -> string)
    requires NoDup(vals) && forall v :: v in vals ==> Truthy(v)
    ensures var r := SortField(vals, key, localeCompare, lower);
      NoDup(r) && forall v :: v in r <==> v in vals
  {
    SelectAll(vals, Truthy);
    var r := SortField(vals, key, localeCompare, lower);
    assert multiset(r) == multiset(vals);
    NoDupPermutation(vals, r);
    forall v ensures v in r <==> v in vals {
      assert v in r <==> v in multiset(r);
    }
  }

  /** Each criteria list has no duplicates, holds only truthy values that some record
      has in that field, and holds every truthy value any record has there. */
  lemma CriteriaFaithful(data: seq<Record>, key: string,
                         localeCompare: (string, string) -> int, lower: string -> string)
    requires key in Fields
    ensures var list := Criteria(Some(data), localeCompare, lower)[key];
      && NoDup(list)
      && (forall v :: v in list ==> Truthy(v) && exists r :: r in data && Field(r, key) == v)
      && (forall r :: r in data && Truthy(Field(r, key)) ==> Field(r, key) in list)
  {
    CriteriaLookup(Some(data), key, localeCompare, lower);
    DistinctFaithful(data, key);
    SortFieldFaithful(Distinct(data, key), key, localeCompare, lower);
  }

  /** The `end_year` list is numerically ascending; the other seven ascend under
      case-sensitive `localeCompare`. */
  lemma CriteriaSorted(data: Option<seq<Record>>, key: string,
                       localeCompare: (string, string) -> int, lower: string -> string)
    requires key in Fields && ConsistentCollation(localeCompare)
    ensures var list := Criteria(data, localeCompare, lower)[key];
      && (key == EndYear ==> forall i, j :: 0 <= i < j < |list| ==> Number(list[i]) <= Number(list[j]))
      && (key != EndYear ==>
            forall i, j :: 0 <= i < j < |list| ==> localeCompare(Text(list[i]), Text(list[j])) <= 0)
  {
    var d := if data.Some? then data.value else [];
    CriteriaLookup(data, key, localeCompare, lower);
    if key == EndYear {
      CriteriaSortedNumeric(data, localeCompare, lower);
    } else {
      SortArrayAscending(ArrayOf(Distinct(d, key)), DefaultType, false, localeCompare, lower);
    }
  }

  /** Criteria values that the field's comparator ties keep the scan's first-seen order. */
  lemma CriteriaTiesInScanOrder(data: Option<seq<Record>>, key: string,
                                localeCompare: (string, string) -> int, lower: string -> string, z: Value)
    requires key in Fields && ConsistentCollation(localeCompare)
    ensures var d := if data.Some? then data.value else [];
      var le := Comparator(if key == EndYear then "number" else DefaultType, false, localeCompare, lower);
      Select(Criteria(data, localeCompare, lower)[key], TiedWith(le, z)) == Select(Distinct(d, key), TiedWith(le, z))
  {
    var d := if data.Some? then data.value else [];
    CriteriaLookup(data, key, localeCompare, lower);
    DistinctFaithful(d, key);
    SelectAll(Distinct(d, key), Truthy);
    SortArrayStable(Distinct(d, key), if key == EndYear then "number" else DefaultType, false, localeCompare, lower, z);
  }

  /** The `end_year` list ascends numerically, whatever `localeCompare` does. */
  lemma CriteriaSortedNumeric(data: Option<seq<Record>>,
                              localeCompare: (string, string) -> int, lower: string -> string)
    ensures EndYear in Criteria(data, localeCompare, lower)
    ensures var list := Criteria(data, localeCompare, lower)[EndYear];
      forall i, j :: 0 <= i < j < |list| ==> Number(list[i]) <= Number(list[j])
  {
    var d := if data.Some? then data.value else [];
    CriteriaLookup(data, EndYear, localeCompare, lower);
    SortArrayNumeric(ArrayOf(Distinct(d, EndYear)), "number", false, localeCompare, lower);
  }

  /** A null or undefined `data` yields the all-empty criteria. */
  lemma CriteriaOfNoData(localeCompare: (string, string) -> int, lower: string -> string)
    ensures Criteria(None, localeCompare, lower) == Initial
  {
    var c := Criteria(None, localeCompare, lower);
    forall key | key in Initial ensures c[key] == [] {
      assert multiset(c[key]) == multiset{};
    }
  }

  /** The radio handler: `{ ...pre, end_year: [item] }`. */
  function ChooseEndYear(pre: Filters, item: Value): (post: Filters)
    ensures post.Keys == pre.Keys + {EndYear}
    ensures post[EndYear] == [item]
    ensures forall key :: key in pre && key != EndYear ==> post[key] == pre[key]
  {
    pre[EndYear := [item]]
  }

  /** `list.filter(x => x !== item)`. */
  function Without(item: Value): Value -> bool {
    x => x != item
  }

  /** The checkbox handler: append the item when checked, drop every occurrence of it
      when unchecked; `pre[title]` must be a list, as the source spreads or filters it. */
  function ToggleValue(pre: Filters, title: string, item: Value, checked: bool): (post: Filters)
    requires title in pre
    ensures post.Keys == pre.Keys
    ensures checked ==> post[title] == pre[title] + [item]
    ensures !checked ==> item !in post[title]
    ensures forall key :: key in pre && key != title ==> post[key] == pre[key]
  {
    var updated := if checked then pre[title] + [item] else Select(pre[title], Without(item));
    pre[title := updated]
  }

  /** Unchecking keeps every other selected value of the field, with its multiplicity. */
  lemma UncheckKeepsOthers(pre: Filters, title: string, item: Value, v: Value)
    requires title in pre && v != item
    ensures multiset(ToggleValue(pre, title, item, false)[title])[v] == multiset(pre[title])[v]
  {
    SelectCount(pre[title], Without(item), v);
  }

  /** Filtering out a value just appended to a list that did not hold it gives the list back. */
  lemma DropAppended(list: seq<Value>, item: Value)
    requires item !in list
    ensures Select(list + [item], Without(item)) == list
  {
    SelectAppend(list, [item], Without(item));
    SelectAll(list, Without(item));
    assert Select([item], Without(item)) == [];
  }

  /** Checking a box that was not checked and then unchecking it restores the filter. */
  lemma CheckThenUncheck(pre: Filters, title: string, item: Value)
    requires title in pre && item !in pre[title]
    ensures ToggleValue(ToggleValue(pre, title, item, true), title, item, false) == pre
  {
    var list := pre[title];
    DropAppended(list, item);
    var once := ToggleValue(pre, title, item, true);
    assert once == pre[title := list + [item]];
    assert ToggleValue(once, title, item, false) == pre[title := list];
    assert pre[title := list] == pre;
  }

  /** After choosing a year, the displayed data is cut off at that year, on top of
      the other fields' selections. */
  lemma ChosenYearIsCutoff(data: seq<Record>, pre: Filters, year: Value)
    ensures forall r :: r in Kept(data, ChooseEndYear(pre, year)) ==>
      Truthy(Field(r, EndYear)) && !Greater(Field(r, EndYear), year)
  {
    var f := ChooseEndYear(pre, year);
    forall r | r in Kept(data, f) ensures Truthy(Field(r, EndYear)) && !Greater(Field(r, EndYear), year) {
      assert Passes(r, f);
      assert !EndYearRejects(r, [year]);
    }
  }

  /** The initial applied filter shows the full data. */
  lemma InitialShowsEverything(data: seq<Record>)
    ensures Kept(data, Initial) == data
  {
    NoSelectionKeepsAll(data, Initial);
  }
}
