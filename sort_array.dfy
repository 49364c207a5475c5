/** `sortArray(array, type = "string", options = { caseInsensitive: false })`
    (frontend/src/lib/sort.js): drop the falsy elements, then sort the rest
    ascending, as strings under `localeCompare` or as numbers by subtraction.
    Locale collation and `toLowerCase` are not modelled: they are parameters. */
module ValueSort {
  import opened JsValues
  import opened Seqs
  import opened StableSort

  /** The `array` argument: an array of field values, or anything that is not an array. */
  datatype Input = ArrayOf(items: seq<Value>) | NotArray

  /** The default of the `type` argument. */
  const DefaultType: string := "string"

  /** The string an element stands for in string mode (callers pass strings only). */
  function Text(v: Value): string {
    if v.Str? then v.s else ""
  }

  /** The number an element stands for in number mode (callers pass numbers only). */
  function Number(v: Value): int {
    if v.Num? then v.n else 0
  }

  /** `a - b <= 0`. */
  function NumericLe(a: int, b: int): bool {
    a - b <= 0
  }

  /** The comparator `sortArray` hands to `sort`, as "`comparator(a, b) <= 0`". */
  function Comparator(typeTag: string, caseInsensitive: bool,
                      localeCompare: (string, string) -> int, lower: string -> string): (Value, Value) -> bool
  {
    if typeTag == "string" then
      if caseInsensitive then By((v: Value) => lower(Text(v)), Collates(localeCompare))
      else By(Text, Collates(localeCompare))
    else By(Number, NumericLe)
  }

  /** `localeCompare` read as "`a.localeCompare(b) <= 0`". */
  function Collates(localeCompare: (string, string) -> int): (string, string) -> bool {
    (a: string, b: string) => localeCompare(a, b) <= 0
  }

  /** `localeCompare` orders strings consistently (a total preorder). */
  ghost predicate ConsistentCollation(localeCompare: (string, string) -> int) {
    TotalPreorder(Collates(localeCompare))
  }

  function SortArray(input: Input, typeTag: string, caseInsensitive: bool,
                     localeCompare: (string, string) -> int, lower: string -> string): (r: seq<Value>)
    ensures input.NotArray? ==> r == []
    ensures forall v :: v in r ==> Truthy(v)
    ensures input.ArrayOf? ==> multiset(r) == multiset(Select(input.items, Truthy))
  {
    match input
    case NotArray => []
    case ArrayOf(items) =>
      var r := Sort(Select(items, Truthy), Comparator(typeTag, caseInsensitive, localeCompare, lower));
      assert forall v :: v in r ==> v in multiset(r);
      r
  }

  lemma ComparatorConsistent(typeTag: string, caseInsensitive: bool,
                             localeCompare: (string, string) -> int, lower: string -> string)
    requires ConsistentCollation(localeCompare)
    ensures TotalPreorder(Comparator(typeTag, caseInsensitive, localeCompare, lower))
  {
    if typeTag == "string" {
      if caseInsensitive {
        ByPreorder((v: Value) => lower(Text(v)), Collates(localeCompare));
      } else {
        ByPreorder(Text, Collates(localeCompare));
      }
    } else {
      ByPreorder(Number, NumericLe);
    }
  }

  /** The output is ascending: under `localeCompare` (of the lower-cased operands
      with `caseInsensitive`) in string mode, numerically for any other type tag. */
  lemma SortArrayAscending(input: Input, typeTag: string, caseInsensitive: bool,
                           localeCompare: (string, string) -> int, lower: string -> string)
    requires ConsistentCollation(localeCompare)
    ensures var r := SortArray(input, typeTag, caseInsensitive, localeCompare, lower);
      && (typeTag == "string" && !caseInsensitive ==>
            forall i, j :: 0 <= i < j < |r| ==> localeCompare(Text(r[i]), Text(r[j])) <= 0)
      && (typeTag == "string" && caseInsensitive ==>
            forall i, j :: 0 <= i < j < |r| ==> localeCompare(lower(Text(r[i])), lower(Text(r[j]))) <= 0)
      && (typeTag != "string" ==>
            forall i, j :: 0 <= i < j < |r| ==> Number(r[i]) <= Number(r[j]))
  {
    if input.ArrayOf? {
      var le := Comparator(typeTag, caseInsensitive, localeCompare, lower);
      ComparatorConsistent(typeTag, caseInsensitive, localeCompare, lower);
      SortSorted(Select(input.items, Truthy), le);
      var r := SortArray(input, typeTag, caseInsensitive, localeCompare, lower);
      if typeTag != "string" {
        SortArrayNumeric(input, typeTag, caseInsensitive, localeCompare, lower);
      }
    }
  }

  /** Number mode ascends numerically whatever `localeCompare` does, since its
      comparator `a - b` never calls it. */
  lemma SortArrayNumeric(input: Input, typeTag: string, caseInsensitive: bool,
                         localeCompare: (string, string) -> int, lower: string -> string)
    requires typeTag != "string"
    ensures var r := SortArray(input, typeTag, caseInsensitive, localeCompare, lower);
      forall i, j :: 0 <= i < j < |r| ==> Number(r[i]) <= Number(r[j])
  {
    if input.ArrayOf? {
      var le := Comparator(typeTag, caseInsensitive, localeCompare, lower);
      assert le == By(Number, NumericLe);
      ByPreorder(Number, NumericLe);
      SortSorted(Select(input.items, Truthy), le);
      var r := SortArray(input, typeTag, caseInsensitive, localeCompare, lower);
      forall i, j | 0 <= i < j < |r| ensures Number(r[i]) <= Number(r[j]) {
        assert le(r[i], r[j]);
        assert NumericLe(Number(r[i]), Number(r[j]));
      }
    }
  }

  /** No deduplication: every truthy value occurs in the output exactly as often as in the input. */
  lemma SortArrayKeepsDuplicates(items: seq<Value>, typeTag: string, caseInsensitive: bool,
                                 localeCompare: (string, string) -> int, lower: string -> string, v: Value)
    ensures multiset(SortArray(ArrayOf(items), typeTag, caseInsensitive, localeCompare, lower))[v]
         == if Truthy(v) then multiset(items)[v] else 0
  {
    SelectCount(items, Truthy, v);
  }

  /** The sort is stable: elements the comparator ranks equal keep their input order. */
  lemma SortArrayStable(items: seq<Value>, typeTag: string, caseInsensitive: bool,
                        localeCompare: (string, string) -> int, lower: string -> string, z: Value)
    requires ConsistentCollation(localeCompare)
    ensures var tied := TiedWith(Comparator(typeTag, caseInsensitive, localeCompare, lower), z);
      Select(SortArray(ArrayOf(items), typeTag, caseInsensitive, localeCompare, lower), tied)
        == Select(Select(items, Truthy), tied)
  {
    ComparatorConsistent(typeTag, caseInsensitive, localeCompare, lower);
    SortStable(Select(items, Truthy), Comparator(typeTag, caseInsensitive, localeCompare, lower), z);
  }
}
