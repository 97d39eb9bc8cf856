/**
 * The direction resolver: which integer direction code a route uses for
 * "inbound" and which for "outbound", computed from the route's list of
 * direction labels and cached per route id for the life of the process.
 */
module Directions {
  import opened Wrappers
  import opened Order
  import opened Seqs

  /** The resolver's answer: a dictionary that always holds exactly the keys "inbound" and "outbound". */
  datatype DirMap = DirMap(inbound: int, outbound: int)
  {
    /** dict.get(key): the code for a key, None for any other key. */
    function Get(key: string): Option<int>
    {
      if key == "inbound" then Some(inbound)
      else if key == "outbound" then Some(outbound)
      else None
    }
  }

  /** The labels used when the route payload is missing or malformed. */
  const DefaultLabels: seq<string> := ["Outbound", "Inbound"]

  /** The labels the resolver works from: the payload's, or the default ones. */
  function LabelsOf(payload: Option<seq<string>>): seq<string>
  {
    match payload
    case Some(labels) => labels
    case None => DefaultLabels
  }

  /**
   * The index the enumerate loop leaves in the lower-cased label dictionary
   * for key: the last position whose lower-cased label is key, if any.
   */
  function LastIndex(labels: seq<string>, key: string): Option<nat>
  {
    if labels == [] then None
    else if Lower(labels[|labels| - 1]) == key then Some(|labels| - 1)
    else LastIndex(labels[..|labels| - 1], key)
  }

  /** LastIndex finds exactly the last label that lower-cases to key. */
  lemma {:induction false} LastIndexSpec(labels: seq<string>, key: string)
    ensures LastIndex(labels, key).Some? <==> exists i :: 0 <= i < |labels| && Lower(labels[i]) == key
    ensures LastIndex(labels, key).Some? ==>
      var i := LastIndex(labels, key).value;
      i < |labels| && Lower(labels[i]) == key &&
      forall j :: i < j < |labels| ==> Lower(labels[j]) != key
  {
    if labels != [] {
      var init := labels[..|labels| - 1];
      LastIndexSpec(init, key);
      if Lower(labels[|labels| - 1]) != key {
        assert forall i :: 0 <= i < |init| ==> init[i] == labels[i];
        if exists i :: 0 <= i < |labels| && Lower(labels[i]) == key {
          var i :| 0 <= i < |labels| && Lower(labels[i]) == key;
          assert Lower(init[i]) == key;
        }
      }
    }
  }

  /**
   * The resolver's answer for a list of labels: when both "inbound" and
   * "outbound" occur (ignoring case) each key gets the position of its label;
   * otherwise the positional default outbound = 0, inbound = 1.
   */
  function Resolve(labels: seq<string>): DirMap
  {
    var inbound := LastIndex(labels, "inbound");
    var outbound := LastIndex(labels, "outbound");
    if inbound.Some? && outbound.Some? then DirMap(inbound.value, outbound.value)
    else DirMap(1, 0)
  }

  /** The resolver's answer for a fetched payload. */
  function ResolvePayload(payload: Option<seq<string>>): DirMap
  {
    Resolve(LabelsOf(payload))
  }

  /** With both conventional labels present, each key maps to the last position of its label. */
  lemma ResolveLabelled(labels: seq<string>)
    requires exists i :: 0 <= i < |labels| && Lower(labels[i]) == "inbound"
    requires exists i :: 0 <= i < |labels| && Lower(labels[i]) == "outbound"
    ensures var r := Resolve(labels);
      && 0 <= r.inbound < |labels| && Lower(labels[r.inbound]) == "inbound"
      && (forall j :: r.inbound < j < |labels| ==> Lower(labels[j]) != "inbound")
      && 0 <= r.outbound < |labels| && Lower(labels[r.outbound]) == "outbound"
      && (forall j :: r.outbound < j < |labels| ==> Lower(labels[j]) != "outbound")
  {
    LastIndexSpec(labels, "inbound");
    LastIndexSpec(labels, "outbound");
  }

  /** Without both conventional labels the answer is outbound = 0, inbound = 1, whatever the labels and their number. */
  lemma ResolvePositional(labels: seq<string>)
    requires !(exists i :: 0 <= i < |labels| && Lower(labels[i]) == "inbound")
          || !(exists i :: 0 <= i < |labels| && Lower(labels[i]) == "outbound")
    ensures Resolve(labels) == DirMap(1, 0)
  {
    LastIndexSpec(labels, "inbound");
    LastIndexSpec(labels, "outbound");
  }

  /** The two codes always differ and are valid label positions (or the defaults 0 and 1). */
  lemma ResolveDistinctCodes(labels: seq<string>)
    ensures var r := Resolve(labels);
      && r.inbound != r.outbound
      && 0 <= r.inbound < (if |labels| < 2 then 2 else |labels|)
      && 0 <= r.outbound < (if |labels| < 2 then 2 else |labels|)
  {
    LastIndexSpec(labels, "inbound");
    LastIndexSpec(labels, "outbound");
  }

  /** The usual heavy-rail labels ["Outbound", "Inbound"] give outbound = 0 and inbound = 1. */
  lemma StandardLabels()
    ensures Resolve(["Outbound", "Inbound"]) == DirMap(1, 0)
    ensures Resolve(["outbound", "INBOUND"]) == DirMap(1, 0)
  {
    assert Lower("Inbound") == "inbound";
    assert Lower("Outbound") == "outbound";
    assert Lower("INBOUND") == "inbound";
    assert Lower("outbound") == "outbound";
  }

  /** A missing or malformed payload still yields both keys, outbound = 0 and inbound = 1. */
  lemma MalformedPayload()
    ensures ResolvePayload(None) == DirMap(1, 0)
    ensures ResolvePayload(None).Get("inbound") == Some(1)
    ensures ResolvePayload(None).Get("outbound") == Some(0)
  {
    StandardLabels();
  }

  /**
   * The enumerate loop: maps each lower-cased label to its position, a
   * later position overwriting an earlier one.
   */
  method IndexLabels(labels: seq<string>) returns (index: map<string, nat>)
    ensures forall key :: key in index <==> exists i :: 0 <= i < |labels| && Lower(labels[i]) == key
    ensures forall key :: key in index ==>
      index[key] < |labels| && Lower(labels[index[key]]) == key &&
      forall j :: index[key] < j < |labels| ==> Lower(labels[j]) != key
  {
    index := map[];
    for i := 0 to |labels|
      invariant forall key :: key in index <==> exists k :: 0 <= k < i && Lower(labels[k]) == key
      invariant forall key :: key in index ==>
        index[key] < i && Lower(labels[index[key]]) == key &&
        forall j :: index[key] < j < i ==> Lower(labels[j]) != key
    {
      index := index[Lower(labels[i]) := i];
    }
  }

  /** The uncached part of get_route_direction_map: from the labels to the answer. */
  method ResolveLabels(labels: seq<string>) returns (r: DirMap)
    ensures r == Resolve(labels)
  {
    var index := IndexLabels(labels);
    LastIndexSpec(labels, "inbound");
    LastIndexSpec(labels, "outbound");
    if "inbound" in index && "outbound" in index {
      r := DirMap(index["inbound"], index["outbound"]);
    } else {
      r := DirMap(1, 0);
    }
  }

  /**
   * The resolver with its per-run cache of answers, keyed by route id.
   * Requests records, in order, the routes whose directions were fetched.
   */
  class DirectionCache {
    var entries: map<string, DirMap>
    ghost var Requests: seq<string>
    ghost var Payloads: map<string, Option<seq<string>>>

    /** Every cached answer is the resolution of the payload fetched for it, and every route was fetched once. */
    ghost predicate Valid()
      reads this
    {
      && entries.Keys == Payloads.Keys
      && (forall route :: route in entries ==> entries[route] == ResolvePayload(Payloads[route]))
      && (forall route :: route in entries <==> route in Requests)
      && NoDuplicates(Requests)
    }

    constructor ()
      ensures Valid()
      ensures entries == map[] && Requests == []
    {
      entries := map[];
      Requests := [];
      Payloads := map[];
    }

    /**
     * get_route_direction_map(routeId). payload stands for the result of the
     * route fetch, which is issued (and used) only when routeId is not yet cached.
     */
    method Get(routeId: string, payload: Option<seq<string>>) returns (r: DirMap)
      requires Valid()
      modifies this
      ensures Valid()
      ensures routeId in entries && entries[routeId] == r
      ensures routeId in old(entries) ==>
        r == old(entries)[routeId] && entries == old(entries) && Requests == old(Requests)
      ensures routeId !in old(entries) ==>
        r == ResolvePayload(payload) && entries == old(entries)[routeId := r] &&
        Requests == old(Requests) + [routeId]
      ensures forall route :: route in old(entries) ==> route in entries && entries[route] == old(entries)[route]
    {
      if routeId in entries {
        return entries[routeId];
      }
      r := ResolveLabels(LabelsOf(payload));
      entries := entries[routeId := r];
      Payloads := Payloads[routeId := payload];
      Requests := Requests + [routeId];
    }
  }

  /** A second lookup of the same route returns the first answer and fetches nothing. */
  method RepeatedLookup(cache: DirectionCache, routeId: string, first: Option<seq<string>>, second: Option<seq<string>>)
    returns (r1: DirMap, r2: DirMap)
    requires cache.Valid()
    modifies cache
    ensures cache.Valid()
    ensures r2 == r1
    ensures routeId in old(cache.entries) ==> cache.entries == old(cache.entries) && cache.Requests == old(cache.Requests)
    ensures routeId !in old(cache.entries) ==>
      cache.entries == old(cache.entries)[routeId := r1] && cache.Requests == old(cache.Requests) + [routeId]
  {
    r1 := cache.Get(routeId, first);
    r2 := cache.Get(routeId, second);
  }
}
