/** Looking up a country's map position by name in the world-countries table. */
module CountryCoords {
  import opened JsValues

  /** The fields of a world-countries entry the lookup reads: `name.common`,
      `name.official` and `latlng`. */
  datatype Country = Country(common: string, official: string, latlng: seq<real>)

  /** The position returned when no entry matches. */
  const Default: seq<real> := [0.0, 0.0]

  /** The entry's common or official name equals `countryName`, ignoring case.
      `lower` is `String.prototype.toLowerCase`. */
  predicate Matches(c: Country, countryName: string, lower: string -> string) {
    lower(countryName) in [lower(c.common), lower(c.official)]
  }

  /** The position of the last matching entry, or `Default`. */
  function LastMatch(table: seq<Country>, countryName: string, lower: string -> string): seq<real> {
    if table == [] then Default
    else if Matches(table[|table| - 1], countryName, lower) then table[|table| - 1].latlng
    else LastMatch(table[..|table| - 1], countryName, lower)
  }

  /** `getCoordinatesOfCountry`: scans every entry and keeps the latest match.
      `region` is accepted and not used. */
  method GetCoordinatesOfCountry(countryName: string, region: Value, worldData: seq<Country>,
                                 lower: string -> string)
    returns (coordinates: seq<real>)
    ensures coordinates == LastMatch(worldData, countryName, lower)
  {
    coordinates := Default;
    var i := 0;
    while i < |worldData|
      invariant 0 <= i <= |worldData|
      invariant coordinates == LastMatch(worldData[..i], countryName, lower)
    {
      assert worldData[..i + 1][..i] == worldData[..i];
      if Matches(worldData[i], countryName, lower) {
        coordinates := worldData[i].latlng;
      }
      i := i + 1;
    }
    assert worldData[..i] == worldData;
  }

  /** With no matching entry the lookup gives `Default`. */
  lemma {:induction false} NoMatchGivesDefault(table: seq<Country>, countryName: string, lower: string -> string)
    requires forall c :: c in table ==> !Matches(c, countryName, lower)
    ensures LastMatch(table, countryName, lower) == Default
  {
    if table != [] {
      var prefix := table[..|table| - 1];
      assert table[|table| - 1] in table;
      forall c | c in prefix ensures !Matches(c, countryName, lower) {
        assert c in table;
      }
      NoMatchGivesDefault(prefix, countryName, lower);
    }
  }

  /** The lookup gives the position of the matching entry nearest the end. */
  lemma {:induction false} LastMatchWins(table: seq<Country>, countryName: string, lower: string -> string, i: nat)
    requires i < |table| && Matches(table[i], countryName, lower)
    requires forall j :: i < j < |table| ==> !Matches(table[j], countryName, lower)
    ensures LastMatch(table, countryName, lower) == table[i].latlng
  {
    if i < |table| - 1 {
      var prefix := table[..|table| - 1];
      assert !Matches(table[|table| - 1], countryName, lower);
      assert prefix[i] == table[i];
      forall j | i < j < |prefix| ensures !Matches(prefix[j], countryName, lower) {
        assert prefix[j] == table[j];
      }
      LastMatchWins(prefix, countryName, lower, i);
    }
  }

  /** Any position other than `Default` comes from an entry that matches. */
  lemma {:induction false} LastMatchSound(table: seq<Country>, countryName: string, lower: string -> string)
    ensures var r := LastMatch(table, countryName, lower);
      r == Default || exists i :: 0 <= i < |table| && Matches(table[i], countryName, lower) && r == table[i].latlng
  {
    if table != [] && !Matches(table[|table| - 1], countryName, lower) {
      var prefix := table[..|table| - 1];
      LastMatchSound(prefix, countryName, lower);
      var r := LastMatch(prefix, countryName, lower);
      if r != Default {
        var i :| 0 <= i < |prefix| && Matches(prefix[i], countryName, lower) && r == prefix[i].latlng;
        assert table[i] == prefix[i];
      }
    }
  }

  /** Names that differ only in case find the same position. */
  lemma {:induction false} LookupIgnoresCase(table: seq<Country>, a: string, b: string, lower: string -> string)
    requires lower(a) == lower(b)
    ensures LastMatch(table, a, lower) == LastMatch(table, b, lower)
  {
    if table != [] {
      LookupIgnoresCase(table[..|table| - 1], a, b, lower);
    }
  }
}
