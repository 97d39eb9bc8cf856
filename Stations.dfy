/**
 * The station resolver: the parent-station ids whose stops, on any of a
 * target's routes, carry the target's name.
 */
module Stations {
  import opened Wrappers
  import opened Order

  /** A stop record: its id, its public name and its parent station (null or "" when it has none). */
  datatype Stop = Stop(id: string, name: string, parentStation: Option<string>)

  /** The id a matching stop contributes: its parent station when that is truthy, else its own id. */
  function StationIdOf(s: Stop): string
  {
    if s.parentStation.Some? && s.parentStation.value != "" then s.parentStation.value else s.id
  }

  /** name.lower() == station_name.lower() */
  predicate NameMatches(s: Stop, stationName: string)
  {
    Lower(s.name) == Lower(stationName)
  }

  /** Some stop of one route's list matches the name and contributes id. */
  ghost predicate MatchIn(stops: seq<Stop>, stationName: string, id: string)
  {
    exists j :: 0 <= j < |stops| && NameMatches(stops[j], stationName) && StationIdOf(stops[j]) == id
  }

  /** Some stop in some route's list matches the name and contributes id. */
  ghost predicate Contributes(stopLists: seq<seq<Stop>>, stationName: string, id: string)
  {
    exists i :: 0 <= i < |stopLists| && MatchIn(stopLists[i], stationName, id)
  }

  /** ids is the sorted, duplicate-free list of exactly the contributed ids. */
  ghost predicate IsResolution(stationName: string, stopLists: seq<seq<Stop>>, ids: seq<string>)
  {
    && StrictlyAscending(ids)
    && forall id :: id in ids <==> Contributes(stopLists, stationName, id)
  }

  /**
   * find_station_parent_ids_for_routes. stopLists[k] stands for the stop list
   * fetched for the k-th route id (empty when the fetch failed).
   */
  method FindParentIds(stationName: string, stopLists: seq<seq<Stop>>) returns (ids: seq<string>)
    ensures IsResolution(stationName, stopLists, ids)
  {
    ids := [];
    for r := 0 to |stopLists|
      invariant StrictlyAscending(ids)
      invariant forall id :: id in ids <==> Contributes(stopLists[..r], stationName, id)
    {
      var stops := stopLists[r];
      for k := 0 to |stops|
        invariant StrictlyAscending(ids)
        invariant forall id :: id in ids <==>
          Contributes(stopLists[..r], stationName, id) || MatchIn(stops[..k], stationName, id)
      {
        var s := stops[k];
        if NameMatches(s, stationName) {
          ids := AddSorted(ids, StationIdOf(s));
        }
        PrefixStep(stops, k, stationName);
      }
      ContributesStep(stopLists, r, stationName);
    }
    assert stopLists[..|stopLists|] == stopLists;
  }

  lemma PrefixStep(stops: seq<Stop>, k: nat, stationName: string)
    requires k < |stops|
    ensures forall id :: MatchIn(stops[..k + 1], stationName, id) <==>
      MatchIn(stops[..k], stationName, id) || (NameMatches(stops[k], stationName) && StationIdOf(stops[k]) == id)
  {
    forall id ensures MatchIn(stops[..k + 1], stationName, id) <==>
      MatchIn(stops[..k], stationName, id) || (NameMatches(stops[k], stationName) && StationIdOf(stops[k]) == id)
    {
      if MatchIn(stops[..k + 1], stationName, id) {
        var j :| 0 <= j < k + 1 && NameMatches(stops[..k + 1][j], stationName) && StationIdOf(stops[..k + 1][j]) == id;
        if j < k {
          assert stops[..k][j] == stops[j];
        }
      }
      if MatchIn(stops[..k], stationName, id) {
        var j :| 0 <= j < k && NameMatches(stops[..k][j], stationName) && StationIdOf(stops[..k][j]) == id;
        assert stops[..k + 1][j] == stops[j];
      }
      if NameMatches(stops[k], stationName) && StationIdOf(stops[k]) == id {
        assert stops[..k + 1][k] == stops[k];
      }
    }
  }

  lemma ContributesStep(stopLists: seq<seq<Stop>>, r: nat, stationName: string)
    requires r < |stopLists|
    ensures forall id :: Contributes(stopLists[..r + 1], stationName, id) <==>
      Contributes(stopLists[..r], stationName, id) || MatchIn(stopLists[r][..|stopLists[r]|], stationName, id)
  {
  }

  /** The result is determined by the stop lists: sorted and de-duplicated, there is only one. */
  lemma ResolutionUnique(stationName: string, stopLists: seq<seq<Stop>>, a: seq<string>, b: seq<string>)
    requires IsResolution(stationName, stopLists, a)
    requires IsResolution(stationName, stopLists, b)
    ensures a == b
  {
    AscendingUnique(a, b);
  }

  /** The result is empty exactly when no stop on any of the routes carries the name. */
  lemma EmptyIffNoMatch(stationName: string, stopLists: seq<seq<Stop>>, ids: seq<string>)
    requires IsResolution(stationName, stopLists, ids)
    ensures ids == [] <==>
      forall i, j :: 0 <= i < |stopLists| && 0 <= j < |stopLists[i]| ==> !NameMatches(stopLists[i][j], stationName)
  {
    if ids == [] {
      forall i, j | 0 <= i < |stopLists| && 0 <= j < |stopLists[i]|
        ensures !NameMatches(stopLists[i][j], stationName)
      {
        var stops := stopLists[i];
        var id := StationIdOf(stops[j]);
        assert NameMatches(stops[j], stationName) ==> MatchIn(stops, stationName, id);
        assert NameMatches(stops[j], stationName) ==> Contributes(stopLists, stationName, id);
      }
    } else {
      assert Contributes(stopLists, stationName, ids[0]);
    }
  }

  /**
   * The Park Street stop list: the parent station, a platform whose parent it
   * is, and an unrelated stop resolve to the single parent id.
   */
  lemma ParkStreetExample(ids: seq<string>)
    requires IsResolution("Park Street", [[Stop("place-pktrm", "Park Street", None),
                                           Stop("70105", "Park Street", Some("place-pktrm")),
                                           Stop("random", "Other", None)]], ids)
    ensures ids == ["place-pktrm"]
  {
    var stops := [Stop("place-pktrm", "Park Street", None),
                  Stop("70105", "Park Street", Some("place-pktrm")),
                  Stop("random", "Other", None)];
    assert !NameMatches(stops[2], "Park Street") by {
      assert |Lower("Other")| != |Lower("Park Street")|;
    }
    assert MatchIn(stops, "Park Street", "place-pktrm") by {
      assert NameMatches(stops[0], "Park Street");
    }
    forall id ensures id in ["place-pktrm"] <==> Contributes([stops], "Park Street", id) {
      if Contributes([stops], "Park Street", id) {
        var i :| 0 <= i < 1 && MatchIn([stops][i], "Park Street", id);
        var j :| 0 <= j < |stops| && NameMatches(stops[j], "Park Street") && StationIdOf(stops[j]) == id;
        assert j == 0 || j == 1;
      }
      if id == "place-pktrm" {
        assert [stops][0] == stops;
      }
    }
    assert IsResolution("Park Street", [stops], ["place-pktrm"]);
    ResolutionUnique("Park Street", [stops], ids, ["place-pktrm"]);
  }

  /** A name that no stop carries resolves to nothing. */
  lemma NonexistentExample(ids: seq<string>)
    requires IsResolution("Nonexistent", [[Stop("1", "Other", None)]], ids)
    ensures ids == []
  {
    assert |Lower("Other")| != |Lower("Nonexistent")|;
    EmptyIffNoMatch("Nonexistent", [[Stop("1", "Other", None)]], ids);
  }
}
