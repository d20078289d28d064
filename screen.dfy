/** The structural screen (ConfigurationValidator.cs:35-47): every type map
    that should be checked and either has unmapped destination members or
    cannot be constructed is reported, all of them together, before any walk. */
module Screen {
  import opened Model

  /** The `where` clauses of the query: checked, and incomplete or not constructible. */
  predicate IsBad(tm: TypeMap)
  {
    tm.shouldCheckForValid && (|tm.unmappedPropertyNames| > 0 || !tm.passesCtorValidation)
  }

  /** The `select` clause of the query. */
  function Report(c: Config, m: MapId): TypeMapConfigErrors
    requires m < |c.typeMaps|
  {
    TypeMapConfigErrors(m, c.typeMaps[m].unmappedPropertyNames, c.typeMaps[m].passesCtorValidation)
  }

  /** The bad type maps among `maps`, in input order. */
  function BadTypeMaps(c: Config, maps: seq<MapId>): seq<TypeMapConfigErrors>
    requires forall k :: 0 <= k < |maps| ==> maps[k] < |c.typeMaps|
  {
    if maps == [] then []
    else (if IsBad(c.typeMaps[maps[0]]) then [Report(c, maps[0])] else []) + BadTypeMaps(c, maps[1..])
  }

  /** A map is reported if and only if it is bad, and a report carries that
      map's unmapped member names and whether it can be constructed. */
  lemma {:induction false} BadTypeMapsExactly(c: Config, maps: seq<MapId>)
    requires forall k :: 0 <= k < |maps| ==> maps[k] < |c.typeMaps|
    ensures forall e :: e in BadTypeMaps(c, maps) <==>
      exists k :: 0 <= k < |maps| && IsBad(c.typeMaps[maps[k]]) && e == Report(c, maps[k])
    ensures BadTypeMaps(c, maps) == [] <==> forall k :: 0 <= k < |maps| ==> !IsBad(c.typeMaps[maps[k]])
  {
    if maps != [] {
      var tail := maps[1..];
      BadTypeMapsExactly(c, tail);
      forall e ensures e in BadTypeMaps(c, maps) <==>
        exists k :: 0 <= k < |maps| && IsBad(c.typeMaps[maps[k]]) && e == Report(c, maps[k])
      {
        if e in BadTypeMaps(c, tail) {
          var k :| 0 <= k < |tail| && IsBad(c.typeMaps[tail[k]]) && e == Report(c, tail[k]);
          assert maps[k + 1] == tail[k];
        }
        if exists k :: 0 <= k < |maps| && IsBad(c.typeMaps[maps[k]]) && e == Report(c, maps[k]) {
          var k :| 0 <= k < |maps| && IsBad(c.typeMaps[maps[k]]) && e == Report(c, maps[k]);
          if k > 0 { assert tail[k - 1] == maps[k]; }
        }
      }
      if forall k :: 0 <= k < |tail| ==> !IsBad(c.typeMaps[tail[k]]) {
        forall k | 0 <= k < |maps| && k > 0 ensures !IsBad(c.typeMaps[maps[k]]) {
          assert maps[k] == tail[k - 1];
        }
      } else {
        var k :| 0 <= k < |tail| && IsBad(c.typeMaps[tail[k]]);
        assert maps[k + 1] == tail[k];
      }
    }
  }
}
