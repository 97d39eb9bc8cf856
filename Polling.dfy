/**
 * What main does with the resolvers' answers: the startup check over the
 * resolved targets, the direction ids a poll asks for, and the bucket of
 * predictions shown per (station, route, direction, parent id).
 */
module Polling {
  import opened Wrappers
  import opened Order
  import opened Seqs
  import opened Directions
  import opened Stations
  import opened Predictions

  const MaxPredictionsPerBucket: nat := 5

  function Min(a: nat, b: nat): nat
  {
    if a < b then a else b
  }

  // ---------------------------------------------------------------------
  // Startup: resolving the configured targets, and the fatal condition
  // ---------------------------------------------------------------------

  /** One configured entry: a station name, its route ids and the human direction names. */
  datatype StationTarget = StationTarget(stationName: string, routes: seq<string>, directions: seq<string>)

  /** A configured entry with the parent-station ids found for it. */
  datatype ResolvedTarget = ResolvedTarget(target: StationTarget, parentIds: seq<string>)

  /** all(len(t["parent_ids"]) == 0 for t in resolved_targets): the fatal condition. */
  predicate AllUnresolved(resolved: seq<ResolvedTarget>)
  {
    forall k :: 0 <= k < |resolved| ==> resolved[k].parentIds == []
  }

  /** The targets each poll serves, in configured order: the loop skips those with no parent id. */
  function Polled(resolved: seq<ResolvedTarget>): (r: seq<ResolvedTarget>)
    ensures forall t :: t in r ==> t in resolved && t.parentIds != []
    ensures forall t :: t in resolved && t.parentIds != [] ==> t in r
    ensures |r| <= |resolved|
  {
    if resolved == [] then []
    else if resolved[0].parentIds == [] then Polled(resolved[1..])
    else [resolved[0]] + Polled(resolved[1..])
  }

  /** Polled keeps configured order: it filters each part of the list in place. */
  lemma {:induction false} PolledAppend(a: seq<ResolvedTarget>, b: seq<ResolvedTarget>)
    ensures Polled(a + b) == Polled(a) + Polled(b)
  {
    if a != [] {
      assert (a + b)[0] == a[0];
      assert (a + b)[1..] == a[1..] + b;
      PolledAppend(a[1..], b);
    } else {
      assert a + b == b;
    }
  }

  /** The program stops at startup exactly when no target would ever be polled. */
  lemma FatalIffNothingPolled(resolved: seq<ResolvedTarget>)
    ensures AllUnresolved(resolved) <==> Polled(resolved) == []
  {
    if !AllUnresolved(resolved) {
      var k :| 0 <= k < |resolved| && resolved[k].parentIds != [];
      assert resolved[k] in Polled(resolved);
    }
  }

  /**
   * The resolution loop at the top of main. stopData[k][i] stands for the
   * stop list fetched for the i-th route of the k-th configured entry.
   * fatal is the condition under which main reports and exits with status 1.
   */
  method ResolveTargets(config: seq<StationTarget>, stopData: seq<seq<seq<Stop>>>)
    returns (resolved: seq<ResolvedTarget>, fatal: bool)
    requires |stopData| == |config|
    requires forall k :: 0 <= k < |config| ==> |stopData[k]| == |config[k].routes|
    ensures |resolved| == |config|
    ensures forall k :: 0 <= k < |config| ==>
      resolved[k].target == config[k] &&
      IsResolution(config[k].stationName, stopData[k], resolved[k].parentIds)
    ensures fatal <==> forall k :: 0 <= k < |config| ==>
      forall i, j :: 0 <= i < |stopData[k]| && 0 <= j < |stopData[k][i]| ==>
        !NameMatches(stopData[k][i][j], config[k].stationName)
    ensures fatal <==> Polled(resolved) == []
  {
    resolved := [];
    for k := 0 to |config|
      invariant |resolved| == k
      invariant forall m :: 0 <= m < k ==>
        resolved[m].target == config[m] &&
        IsResolution(config[m].stationName, stopData[m], resolved[m].parentIds)
    {
      var parentIds := FindParentIds(config[k].stationName, stopData[k]);
      resolved := resolved + [ResolvedTarget(config[k], parentIds)];
    }
    forall k | 0 <= k < |config|
      ensures resolved[k].parentIds == [] <==>
        forall i, j :: 0 <= i < |stopData[k]| && 0 <= j < |stopData[k][i]| ==>
          !NameMatches(stopData[k][i][j], config[k].stationName)
    {
      EmptyIffNoMatch(config[k].stationName, stopData[k], resolved[k].parentIds);
    }
    fatal := AllUnresolved(resolved);
    FatalIffNothingPolled(resolved);
  }

  // ---------------------------------------------------------------------
  // The direction ids one poll asks for
  // ---------------------------------------------------------------------

  /**
   * dir_ids_to_try: the code the direction map gives the lower-cased human
   * direction, or both codes 0 and 1 when the map has no such key.
   */
  function DirectionIdsToTry(dirMap: DirMap, humanDir: string): (r: seq<int>)
    ensures Lower(humanDir) == "inbound" ==> r == [dirMap.inbound]
    ensures Lower(humanDir) == "outbound" ==> r == [dirMap.outbound]
    ensures Lower(humanDir) != "inbound" && Lower(humanDir) != "outbound" ==> r == [0, 1]
  {
    match dirMap.Get(Lower(humanDir))
    case Some(d) => [d]
    case None => [0, 1]
  }

  /**
   * For any route, "inbound" and "outbound" each ask for a single code, and
   * never for the same one.
   */
  lemma ConfiguredDirectionsDiffer(labels: seq<string>)
    ensures |DirectionIdsToTry(Resolve(labels), "inbound")| == 1
    ensures |DirectionIdsToTry(Resolve(labels), "outbound")| == 1
    ensures DirectionIdsToTry(Resolve(labels), "inbound") != DirectionIdsToTry(Resolve(labels), "outbound")
  {
    assert Lower("inbound") == "inbound";
    assert Lower("outbound") == "outbound";
    ResolveDistinctCodes(labels);
  }

  /**
   * The predictions requests one bucket issues: one per direction id tried,
   * each filtered by that id, so main never sends an unfiltered request.
   */
  function PollRequests(parentId: string, routeId: string, dirMap: DirMap, humanDir: string): (r: seq<map<string, ParamValue>>)
    ensures |r| == |DirectionIdsToTry(dirMap, humanDir)| && 1 <= |r| <= 2
    ensures forall k :: 0 <= k < |r| ==> DirectionFilter in r[k] && "filter[stop]" in r[k] && r[k]["filter[stop]"] == Text(parentId)
    ensures forall k :: 0 <= k < |r| ==> "filter[route]" in r[k] && r[k]["filter[route]"] == Text(routeId)
    ensures forall k, key :: 0 <= k < |r| && key in r[k] && key != DirectionFilter ==>
      key in BaseParams(parentId, routeId) && r[k][key] == BaseParams(parentId, routeId)[key]
    ensures forall k :: 0 <= k < |r| ==> |r[k]| == |BaseParams(parentId, routeId)| + 1
    ensures forall k :: 0 <= k < |r| ==> r[k][DirectionFilter] == Number(DirectionIdsToTry(dirMap, humanDir)[k])
  {
    var ids := DirectionIdsToTry(dirMap, humanDir);
    seq(|ids|, k requires 0 <= k < |ids| => FetchParams(parentId, routeId, Some(ids[k])))
  }

  // ---------------------------------------------------------------------
  // The bucket: filter, de-duplicate, sort by time string, truncate
  // ---------------------------------------------------------------------

  /** Ordered by time string under Python's str order (not chronological order). */
  ghost predicate SortedByTime(s: seq<Summary>)
  {
    forall i, j :: 0 <= i < j < |s| ==> LexLe(s[i].when, s[j].when)
  }

  /** The summaries of one response that carry a time, in response order. */
  function Timed(preds: seq<Prediction>, localTime: string -> string): seq<Summary>
  {
    if preds == [] then []
    else
      var s := Summarize(preds[|preds| - 1], "", localTime);
      var init := Timed(preds[..|preds| - 1], localTime);
      if s.when != Sentinel then init + [s] else init
  }

  /** The list the bucket loop appends to, over the responses for each direction id tried. */
  function TimedAll(responses: seq<seq<Prediction>>, localTime: string -> string): seq<Summary>
  {
    if responses == [] then []
    else TimedAll(responses[..|responses| - 1], localTime) + Timed(responses[|responses| - 1], localTime)
  }

  /** The summaries eligible for a bucket: those of any fetched record that carry a time. */
  ghost function Candidates(responses: seq<seq<Prediction>>, localTime: string -> string): set<Summary>
  {
    set i, j | 0 <= i < |responses| && 0 <= j < |responses[i]| && Summarize(responses[i][j], "", localTime).when != Sentinel
      :: Summarize(responses[i][j], "", localTime)
  }

  lemma {:induction false} TimedMembers(preds: seq<Prediction>, localTime: string -> string)
    ensures forall e :: e in Timed(preds, localTime) <==>
      e.when != Sentinel && exists j :: 0 <= j < |preds| && Summarize(preds[j], "", localTime) == e
  {
    if preds != [] {
      var init := preds[..|preds| - 1];
      TimedMembers(init, localTime);
      assert forall j :: 0 <= j < |init| ==> init[j] == preds[j];
      forall e: Summary | e.when != Sentinel && exists j :: 0 <= j < |preds| && Summarize(preds[j], "", localTime) == e
        ensures e in Timed(preds, localTime)
      {
        var j :| 0 <= j < |preds| && Summarize(preds[j], "", localTime) == e;
        if j < |init| {
          assert Summarize(init[j], "", localTime) == e;
        }
      }
    }
  }

  lemma {:induction false} TimedAllMembers(responses: seq<seq<Prediction>>, localTime: string -> string)
    ensures forall e :: e in TimedAll(responses, localTime) <==> e in Candidates(responses, localTime)
  {
    if responses != [] {
      var init := responses[..|responses| - 1];
      var last := responses[|responses| - 1];
      TimedAllMembers(init, localTime);
      TimedMembers(last, localTime);
      forall e ensures e in TimedAll(responses, localTime) <==> e in Candidates(responses, localTime) {
        if e in Candidates(responses, localTime) {
          var i, j :| 0 <= i < |responses| && 0 <= j < |responses[i]| &&
            Summarize(responses[i][j], "", localTime).when != Sentinel &&
            Summarize(responses[i][j], "", localTime) == e;
          if i < |init| {
            assert init[i] == responses[i];
            assert e in Candidates(init, localTime);
          }
        }
        if e in Candidates(init, localTime) {
          var i, j :| 0 <= i < |init| && 0 <= j < |init[i]| &&
            Summarize(init[i][j], "", localTime).when != Sentinel &&
            Summarize(init[i][j], "", localTime) == e;
          assert responses[i] == init[i];
        }
      }
    }
  }

  lemma PrependSorted(e: Summary, s: seq<Summary>)
    requires s != [] && LexLe(e.when, s[0].when)
    ensures SortedByTime(s) ==> SortedByTime([e] + s)
  {
    if SortedByTime(s) {
      forall j | 0 <= j < |s| ensures LexLe(e.when, s[j].when) {
        if j > 0 {
          LexLeTransitive(e.when, s[0].when, s[j].when);
        }
      }
    }
  }

  lemma HeadNotInTail<T>(s: seq<T>)
    requires s != []
    ensures NoDuplicates(s) ==> s[0] !in s[1..] && NoDuplicates(s[1..])
  {
  }

  /** Keeping the head and inserting into the tail sorts the result when the entry sorts after the head. */
  lemma InsertAfterHeadSorted(s: seq<Summary>, e: Summary, rest: seq<Summary>)
    requires s != [] && !LexLe(e.when, s[0].when)
    requires forall x :: x in rest ==> x in s[1..] || x == e
    requires SortedByTime(s[1..]) ==> SortedByTime(rest)
    ensures SortedByTime(s) ==> SortedByTime([s[0]] + rest)
  {
    if SortedByTime(s) {
      LexLeTotal(e.when, s[0].when);
      assert SortedByTime(s[1..]);
      forall k | 0 <= k < |rest| ensures LexLe(s[0].when, rest[k].when) {
        assert rest[k] in rest;
        if rest[k] != e {
          var m :| 0 <= m < |s[1..]| && s[1..][m] == rest[k];
          assert s[m + 1] == rest[k];
        }
      }
    }
  }

  /** Keeping the head and inserting a new entry into the tail keeps the list free of repeats. */
  lemma InsertAfterHeadDistinct(s: seq<Summary>, e: Summary, rest: seq<Summary>)
    requires s != []
    requires forall x :: x in rest ==> x in s[1..] || x == e
    requires NoDuplicates(s[1..]) && e !in s[1..] ==> NoDuplicates(rest)
    ensures NoDuplicates(s) && e !in s ==> NoDuplicates([s[0]] + rest)
  {
    HeadNotInTail(s);
  }

  /** Insertion of one summary before the first one with a later time string. */
  function InsertByTime(s: seq<Summary>, e: Summary): (r: seq<Summary>)
    ensures |r| == |s| + 1
    ensures multiset(r) == multiset(s) + multiset{e}
    ensures forall x :: x in r <==> x in s || x == e
    ensures SortedByTime(s) ==> SortedByTime(r)
    ensures NoDuplicates(s) && e !in s ==> NoDuplicates(r)
  {
    if s == [] then [e]
    else if LexLe(e.when, s[0].when) then
      PrependSorted(e, s);
      [e] + s
    else
      var rest := InsertByTime(s[1..], e);
      assert s == [s[0]] + s[1..];
      InsertAfterHeadSorted(s, e, rest);
      InsertAfterHeadDistinct(s, e, rest);
      [s[0]] + rest
  }

  /** sorted(..., key=lambda x: x[0]) as insertion sort. */
  function SortByTime(s: seq<Summary>): (r: seq<Summary>)
    ensures |r| == |s|
    ensures multiset(r) == multiset(s)
    ensures forall x :: x in r <==> x in s
    ensures SortedByTime(r)
    ensures NoDuplicates(s) ==> NoDuplicates(r)
  {
    if s == [] then []
    else
      assert s == s[..|s| - 1] + [s[|s| - 1]];
      InsertByTime(SortByTime(s[..|s| - 1]), s[|s| - 1])
  }

  /** sorted(set(bucket), key=lambda x: x[0])[:MAX_PREDICTIONS_PER_BUCKET] */
  function TopN(raw: seq<Summary>): seq<Summary>
  {
    var sorted := SortByTime(Distinct(raw));
    sorted[..Min(MaxPredictionsPerBucket, |sorted|)]
  }

  /**
   * The bucket holds no entry twice, is ordered by time string, keeps at most
   * MAX_PREDICTIONS_PER_BUCKET entries (fewer only when fewer distinct ones
   * exist), keeps only entries of the input, and drops none that sorts before
   * an entry it keeps.
   */
  lemma TopNSpec(raw: seq<Summary>)
    ensures var b := TopN(raw);
      && NoDuplicates(b)
      && SortedByTime(b)
      && |b| == Min(MaxPredictionsPerBucket, |set e | e in raw|)
      && (forall e :: e in b ==> e in raw)
      && (forall e, k :: e in raw && e !in b && 0 <= k < |b| ==> LexLe(b[k].when, e.when))
  {
    var d := Distinct(raw);
    var sorted := SortByTime(d);
    var b := TopN(raw);
    var n := Min(MaxPredictionsPerBucket, |sorted|);
    assert b == sorted[..n];
    NoDuplicatesCardinality(d);
    assert (set e | e in d) == (set e | e in raw);
    forall e, k | e in raw && e !in b && 0 <= k < |b| ensures LexLe(b[k].when, e.when) {
      var m :| 0 <= m < |sorted| && sorted[m] == e;
      assert forall i :: 0 <= i < n ==> sorted[i] in b;
      assert n <= m;
    }
  }

  /**
   * The bucket step for one (target, route, direction, parent id).
   * responses[k] stands for the records fetched for the k-th direction id
   * tried; localTime for iso_to_local_str.
   */
  method BuildBucket(responses: seq<seq<Prediction>>, localTime: string -> string) returns (bucket: seq<Summary>)
    ensures NoDuplicates(bucket)
    ensures SortedByTime(bucket)
    ensures |bucket| == Min(MaxPredictionsPerBucket, |Candidates(responses, localTime)|)
    ensures forall e :: e in bucket ==> e in Candidates(responses, localTime) && e.when != Sentinel
    ensures forall e, k :: e in Candidates(responses, localTime) && e !in bucket && 0 <= k < |bucket| ==>
      LexLe(bucket[k].when, e.when)
  {
    var raw: seq<Summary> := [];
    for i := 0 to |responses|
      invariant raw == TimedAll(responses[..i], localTime)
    {
      var preds := responses[i];
      for j := 0 to |preds|
        invariant raw == TimedAll(responses[..i], localTime) + Timed(preds[..j], localTime)
      {
        var s := Summarize(preds[j], "", localTime);
        if s.when != Sentinel {
          raw := raw + [s];
        }
        assert preds[..j + 1][..j] == preds[..j];
      }
      assert preds[..|preds|] == preds;
      assert responses[..i + 1][..i] == responses[..i];
    }
    assert responses[..|responses|] == responses;
    TimedAllMembers(responses, localTime);
    assert (set e | e in raw) == Candidates(responses, localTime);
    TopNSpec(raw);
    bucket := TopN(raw);
  }
}
