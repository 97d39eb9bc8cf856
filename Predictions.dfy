/**
 * One prediction record reduced to what the console shows, and the query
 * parameters of the predictions request.
 */
module Predictions {
  import opened Wrappers

  /** The attributes of a prediction record that the tracker reads; None is an absent (or null) field. */
  datatype Prediction = Prediction(arrivalTime: Option<string>, departureTime: Option<string>, directionId: Option<int>)

  /** (when_local, headsign, dir_id) */
  datatype Summary = Summary(when: string, headsign: string, directionId: int)

  /** The em dash shown, and filtered out, when a record has neither time. */
  const Sentinel: string := "\U{2014}"

  /** Python truthiness of an optional string: present and non-empty. */
  predicate Truthy(v: Option<string>)
  {
    v.Some? && v.value != ""
  }

  /**
   * summarize_prediction(p, defaultHeadsign). localTime stands for
   * iso_to_local_str, the time-zone conversion and formatting, which is opaque here.
   */
  function Summarize(p: Prediction, defaultHeadsign: string, localTime: string -> string): (r: Summary)
    ensures r.headsign == defaultHeadsign
    ensures r.directionId == (if p.directionId.Some? then p.directionId.value else -1)
    ensures Truthy(p.arrivalTime) ==> r.when == localTime(p.arrivalTime.value)
    ensures !Truthy(p.arrivalTime) && Truthy(p.departureTime) ==> r.when == localTime(p.departureTime.value)
    ensures !Truthy(p.arrivalTime) && !Truthy(p.departureTime) ==> r.when == Sentinel
  {
    var whenIso := if Truthy(p.arrivalTime) then p.arrivalTime else p.departureTime;
    var whenLocal := if Truthy(whenIso) then localTime(whenIso.value) else Sentinel;
    var dirId := match p.directionId case Some(d) => d case None => -1;
    Summary(whenLocal, defaultHeadsign, dirId)
  }

  /**
   * As long as formatting never produces the em dash, a summary carries the
   * sentinel exactly when the record has neither an arrival nor a departure time.
   */
  lemma SentinelIffNoTime(p: Prediction, defaultHeadsign: string, localTime: string -> string)
    requires forall iso :: localTime(iso) != Sentinel
    ensures Summarize(p, defaultHeadsign, localTime).when == Sentinel <==>
      !Truthy(p.arrivalTime) && !Truthy(p.departureTime)
  {
  }

  /** The value of one query parameter: a string, or an integer that the HTTP client renders. */
  datatype ParamValue = Text(text: string) | Number(number: int)

  const DirectionFilter: string := "filter[direction_id]"

  /** The parameters fetch_predictions always sends. */
  function BaseParams(stopId: string, routeId: string): map<string, ParamValue>
  {
    map[
      "filter[stop]" := Text(stopId),
      "filter[route]" := Text(routeId),
      "include" := Text("route,stop,trip"),
      "sort" := Text("arrival_time,departure_time"),
      "page[limit]" := Number(25),
      "fields[prediction]" := Text("arrival_time,departure_time,direction_id,stop,trip,route"),
      "fields[trip]" := Text("headsign"),
      "fields[route]" := Text("long_name,short_name")
    ]
  }

  /**
   * The query of fetch_predictions(stopId, routeId, directionId): the direction
   * filter is sent exactly when a direction is given (0 included), and it
   * carries that direction; everything else is the same either way.
   */
  function FetchParams(stopId: string, routeId: string, directionId: Option<int>): (r: map<string, ParamValue>)
    ensures "filter[stop]" in r && "filter[route]" in r
    ensures r["filter[stop]"] == Text(stopId) && r["filter[route]"] == Text(routeId)
    ensures DirectionFilter in r <==> directionId.Some?
    ensures directionId.Some? ==> r[DirectionFilter] == Number(directionId.value)
    ensures forall key :: key in r && key != DirectionFilter ==> key in BaseParams(stopId, routeId) && r[key] == BaseParams(stopId, routeId)[key]
    ensures |r| == if directionId.Some? then 9 else 8
  {
    var base := BaseParams(stopId, routeId);
    assert DirectionFilter !in base;
    match directionId
    case Some(d) => base[DirectionFilter := Number(d)]
    case None => base
  }
}
