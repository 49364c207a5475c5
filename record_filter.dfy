/** `applyFilter(data, filters)` (frontend/src/lib/filter.js): keep the records
    that pass every field filter. `end_year` is an upper-bound cutoff read from
    the first selected value only; every other key is a "truthy and selected" test. */
module RecordFilter {
  import opened JsValues
  import opened Seqs

  /** The applied filter: field name to the list of selected values. */
  type Filters = map<string, seq<Value>>

  const EndYear: string := "end_year"

  /** The UTF-16 code units of one character (section 6.1.4 of ECMA-262): one unit
      below U+10000, otherwise a high and a low surrogate. */
  function CodeUnits(c: char): (u: seq<int>)
    ensures 1 <= |u| <= 2
    ensures forall k :: 0 <= k < |u| ==> 0 <= u[k] < 0x1_0000
    ensures |u| == 2 <==> c as int >= 0x1_0000
  {
    var n := c as int;
    if n < 0x1_0000 then [n]
    else [0xD800 + (n - 0x1_0000) / 0x400, 0xDC00 + (n - 0x1_0000) % 0x400]
  }

  /** A string as JavaScript stores it: its sequence of UTF-16 code units. */
  function Utf16(s: string): seq<int> {
    if s == [] then [] else CodeUnits(s[0]) + Utf16(s[1..])
  }

  /** Lexicographic order on code-unit sequences; a proper prefix comes first. */
  predicate UnitsLess(a: seq<int>, b: seq<int>) {
    if a == [] then b != []
    else if b == [] then false
    else if a[0] != b[0] then a[0] < b[0]
    else UnitsLess(a[1..], b[1..])
  }

  /** JavaScript `a < b` on two strings: lexicographic by UTF-16 code unit
      (IsLessThan, section 7.2.13 of ECMA-262). */
  predicate StrLess(a: string, b: string) {
    UnitsLess(Utf16(a), Utf16(b))
  }

  /** Code-unit order is not code-point order: U+10000 is stored as the surrogates
      D800 DC00 and so sorts below U+E000. */
  lemma SupplementaryBelowPrivateUse()
    ensures StrLess("\U{10000}", "\U{E000}")
    ensures !Greater(Str("\U{10000}"), Str("\U{E000}"))
  {
    assert Utf16("\U{10000}") == [0xD800, 0xDC00];
    assert Utf16("\U{E000}") == [0xE000];
  }

  /** JavaScript `a > b` on two field values (numbers numerically, strings by code
      unit, `undefined` never greater and never exceeded). */
  predicate Greater(a: Value, b: Value) {
    match (a, b)
    case (Num(x), Num(y)) => x > y
    case (Str(x), Str(y)) => StrLess(y, x)
    case _ => false
  }

  /** The end-year check sets `isPassed` to false. */
  predicate EndYearRejects(r: Record, selected: seq<Value>) {
    |selected| > 0 && (!Truthy(Field(r, EndYear)) || Greater(Field(r, EndYear), selected[0]))
  }

  /** The check of another key sets `isPassed` to false. */
  predicate KeyRejects(r: Record, key: string, selected: seq<Value>) {
    |selected| > 0 && (!Truthy(Field(r, key)) || Field(r, key) !in selected)
  }

  /** A record is kept when no field's check rejects it. */
  predicate Passes(r: Record, filters: Filters) {
    && (EndYear in filters ==> !EndYearRejects(r, filters[EndYear]))
    && (forall key :: key in filters && key != EndYear ==> !KeyRejects(r, key, filters[key]))
  }

  function Keeps(filters: Filters): Record -> bool {
    r => Passes(r, filters)
  }

  /** The records `applyFilter` returns. */
  function Kept(data: seq<Record>, filters: Filters): seq<Record> {
    Select(data, Keeps(filters))
  }

  /** The loop of the source: a flag per record, cleared by any failing check,
      and a push of the records whose flag survives. `filters.end_year` must be
      an array, as `.length` is read from it unguarded. */
  method ApplyFilter(data: seq<Record>, filters: Filters) returns (dataToShow: seq<Record>)
    requires EndYear in filters
    ensures dataToShow == Kept(data, filters)
  {
    dataToShow := [];
    var i := 0;
    while i < |data|
      invariant 0 <= i <= |data|
      invariant dataToShow == Kept(data[..i], filters)
    {
      var item := data[i];
      var isPassed := true;
      var endYears := filters[EndYear];
      if |endYears| > 0 && (!Truthy(Field(item, EndYear)) || Greater(Field(item, EndYear), endYears[0])) {
        isPassed := false;
      }
      var allFilters := set key | key in filters && key != EndYear;
      var remaining := allFilters;
      while remaining != {}
        invariant remaining <= allFilters
        invariant isPassed <==>
          !EndYearRejects(item, endYears) &&
          forall key :: key in allFilters && key !in remaining ==> !KeyRejects(item, key, filters[key])
        decreases remaining
      {
        var key :| key in remaining;
        if |filters[key]| > 0 && (!Truthy(Field(item, key)) || Field(item, key) !in filters[key]) {
          isPassed := false;
        }
        remaining := remaining - {key};
      }
      assert isPassed == Passes(item, filters);
      if isPassed {
        dataToShow := dataToShow + [item];
      }
      KeptStep(data, filters, i);
      i := i + 1;
    }
    assert data[..i] == data;
  }

  /** One more input record extends the output by that record exactly when it passes. */
  lemma KeptStep(data: seq<Record>, filters: Filters, i: nat)
    requires i < |data|
    ensures Kept(data[..i + 1], filters) == Kept(data[..i], filters) + (if Passes(data[i], filters) then [data[i]] else [])
  {
    assert data[..i + 1] == data[..i] + [data[i]];
    SelectAppend(data[..i], [data[i]], Keeps(filters));
  }

  /** The output is a subsequence of the input: input records, in input order. */
  lemma KeptIsSubsequence(data: seq<Record>, filters: Filters)
    ensures SubsequenceOf(Kept(data, filters), data)
  {
    SelectSubsequence(data, Keeps(filters));
  }

  /** Fields combine with AND: a record is kept iff it is an input record that no check rejects,
      and it is kept as many times as it occurs. */
  lemma KeptExactly(data: seq<Record>, filters: Filters, r: Record)
    ensures r in Kept(data, filters) <==> r in data && Passes(r, filters)
    ensures multiset(Kept(data, filters))[r] == if Passes(r, filters) then multiset(data)[r] else 0
  {
    SelectMember(data, Keeps(filters), r);
    SelectCount(data, Keeps(filters), r);
  }

  /** With every selection list empty, the output is the input itself. */
  lemma NoSelectionKeepsAll(data: seq<Record>, filters: Filters)
    requires forall key :: key in filters ==> filters[key] == []
    ensures Kept(data, filters) == data
  {
    SelectAll(data, Keeps(filters));
  }

  /** A non-empty `end_year` selection is a cutoff: among the input records that the
      other keys let through, exactly those with a truthy `end_year` not greater than
      the first selected value are kept. */
  lemma EndYearCutoff(data: seq<Record>, filters: Filters, r: Record)
    requires EndYear in filters && |filters[EndYear]| > 0
    requires r in data
    requires forall key :: key in filters && key != EndYear ==> !KeyRejects(r, key, filters[key])
    ensures r in Kept(data, filters) <==>
      Truthy(Field(r, EndYear)) && !Greater(Field(r, EndYear), filters[EndYear][0])
  {
    SelectMember(data, Keeps(filters), r);
  }

  /** Only index 0 of the `end_year` selection is consulted. */
  lemma OnlyFirstEndYearCounts(data: seq<Record>, filters: Filters, a: seq<Value>, b: seq<Value>)
    requires |a| > 0 && |b| > 0 && a[0] == b[0]
    ensures Kept(data, filters[EndYear := a]) == Kept(data, filters[EndYear := b])
  {
    var fa, fb := filters[EndYear := a], filters[EndYear := b];
    forall r | r in data ensures Keeps(fa)(r) == Keeps(fb)(r) {
      assert forall key :: key in fa && key != EndYear ==> key in fb && fa[key] == fb[key];
      assert forall key :: key in fb && key != EndYear ==> key in fa && fa[key] == fb[key];
    }
    SelectCongruent(data, Keeps(fa), Keeps(fb));
  }

  /** For any other key with a non-empty selection, every kept record has a truthy
      value for it and that value is one of the selected ones. */
  lemma KeptWithinSelection(data: seq<Record>, filters: Filters, key: string)
    requires key in filters && key != EndYear && |filters[key]| > 0
    ensures forall r :: r in Kept(data, filters) ==> Truthy(Field(r, key)) && Field(r, key) in filters[key]
  {
    forall r | r in Kept(data, filters) ensures Truthy(Field(r, key)) && Field(r, key) in filters[key] {
      assert Passes(r, filters);
      assert !KeyRejects(r, key, filters[key]);
    }
  }

  /** An empty selection for a key filters exactly as the key being absent: only the
      keys of `filters` are tested, and only when their selection is non-empty. */
  lemma EmptySelectionIsNoFilter(data: seq<Record>, filters: Filters, key: string)
    requires key != EndYear
    ensures Kept(data, filters[key := []]) == Kept(data, filters - {key})
  {
    var f1, f2 := filters[key := []], filters - {key};
    forall r | r in data ensures Keeps(f1)(r) == Keeps(f2)(r) {
      if Passes(r, f2) {
        forall k | k in f1 && k != EndYear ensures !KeyRejects(r, k, f1[k]) {
          if k != key {
            assert k in f2;
          }
        }
        assert Passes(r, f1);
      }
      if Passes(r, f1) {
        forall k | k in f2 && k != EndYear ensures !KeyRejects(r, k, f2[k]) {
          assert k in f1 && f1[k] == f2[k];
        }
        if EndYear in f2 {
          assert f1[EndYear] == f2[EndYear];
        }
        assert Passes(r, f2);
      }
    }
    SelectCongruent(data, Keeps(f1), Keeps(f2));
  }

  /** Filtering the output again with the same filters changes nothing. */
  lemma KeptIdempotent(data: seq<Record>, filters: Filters)
    ensures Kept(Kept(data, filters), filters) == Kept(data, filters)
  {
    SelectAll(Kept(data, filters), Keeps(filters));
  }
}
