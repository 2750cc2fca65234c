/** The route store: a sequence of routes with a unique `routeId`, queried
    by optional filters, and carrying at most one baseline flag. */
module RouteRepository {

  import opened Outcomes
  import opened Domain
  import opened Seqs

  type Routes = seq<Route>

  /** The store's unique key: no two routes share a routeId. */
  predicate UniqueRouteIds(routes: Routes)
  {
    forall i, j :: 0 <= i < j < |routes| ==> routes[i].routeId != routes[j].routeId
  }

  /** The invariant the baseline operations keep. */
  predicate AtMostOneBaseline(routes: Routes)
  {
    forall i, j :: 0 <= i < j < |routes| && routes[i].isBaseline ==> !routes[j].isBaseline
  }

  /** A filter constrains only when present and truthy: an empty string or a
      zero year is treated as absent. */
  predicate Matches(r: Route, filters: RouteFilters)
  {
    && (filters.vesselType.Some? && filters.vesselType.value != "" ==> r.vesselType == filters.vesselType.value)
    && (filters.fuelType.Some? && filters.fuelType.value != "" ==> r.fuelType == filters.fuelType.value)
    && (filters.year.Some? && filters.year.value != 0 ==> r.year == filters.year.value)
  }

  function MatchesFilters(filters: RouteFilters): Route -> bool
  {
    (r: Route) => Matches(r, filters)
  }

  /** The routes matching every active filter, in store order. */
  function FindAll(routes: Routes, filters: RouteFilters): (r: Routes)
    ensures |r| <= |routes|
    ensures forall k :: 0 <= k < |r| ==> r[k] in routes && Matches(r[k], filters)
    ensures forall i :: 0 <= i < |routes| && Matches(routes[i], filters) ==> routes[i] in r
  {
    Filter(routes, MatchesFilters(filters))
  }

  /** A matching route is listed exactly as often as it is stored, and a
      route that does not match is never listed. */
  lemma FindAllCounts(routes: Routes, filters: RouteFilters, x: Route)
    ensures multiset(FindAll(routes, filters))[x] == if Matches(x, filters) then multiset(routes)[x] else 0
  {
    FilterMultiset(routes, MatchesFilters(filters), x);
  }

  /** With no filter, or only falsy ones, every route is listed in order. */
  lemma {:induction false} FindAllUnfiltered(routes: Routes, filters: RouteFilters)
    requires filters.vesselType.None? || filters.vesselType == Some("")
    requires filters.fuelType.None? || filters.fuelType == Some("")
    requires filters.year.None? || filters.year == Some(0)
    ensures FindAll(routes, filters) == routes
  {
    if routes != [] {
      FindAllUnfiltered(routes[1..], filters);
      assert routes == [routes[0]] + routes[1..];
    }
  }

  function HasRouteId(routeId: string): Route -> bool
  {
    (r: Route) => r.routeId == routeId
  }

  function IsFlagged(r: Route): bool { r.isBaseline }

  /** The route with this routeId, or none. */
  function FindByRouteId(routes: Routes, routeId: string): (r: Option<Route>)
    ensures r.Some? ==> r.value in routes && r.value.routeId == routeId
    ensures r.None? <==> forall i :: 0 <= i < |routes| ==> routes[i].routeId != routeId
    ensures UniqueRouteIds(routes) ==>
      forall i :: 0 <= i < |routes| && routes[i].routeId == routeId ==> r == Some(routes[i])
  {
    match FirstIndex(routes, HasRouteId(routeId))
    case None => None
    case Some(i) => Some(routes[i])
  }

  /** The first route flagged as baseline, or none. */
  function FindBaseline(routes: Routes): (r: Option<Route>)
    ensures r.Some? ==> r.value in routes && r.value.isBaseline
    ensures r.None? <==> forall i :: 0 <= i < |routes| ==> !routes[i].isBaseline
    ensures AtMostOneBaseline(routes) ==>
      forall i :: 0 <= i < |routes| && routes[i].isBaseline ==> r == Some(routes[i])
  {
    match FirstIndex(routes, IsFlagged)
    case None => None
    case Some(i) => Some(routes[i])
  }

  /** Every route with its baseline flag cleared. */
  function ClearBaselines(routes: Routes): (r: Routes)
    ensures |r| == |routes|
    ensures forall i :: 0 <= i < |r| ==> r[i] == routes[i].(isBaseline := false)
  {
    seq(|routes|, i requires 0 <= i < |routes| => routes[i].(isBaseline := false))
  }

  /** Clears every baseline flag, then flags the route with `routeId`. The
      clear is not undone when no route has that routeId: the store is left
      with no baseline and the update's failure is reported. */
  function SetBaseline(routes: Routes, routeId: string): (r: (Outcome<Route>, Routes))
    ensures |r.1| == |routes|
    ensures forall i :: 0 <= i < |routes| ==> r.1[i] == routes[i].(isBaseline := r.1[i].isBaseline)
    ensures AtMostOneBaseline(r.1)
    ensures r.0.Ok? <==> FindByRouteId(routes, routeId).Some?
    ensures r.0.Err? ==> r.0.error == RouteRecordNotFound(routeId) && forall i :: 0 <= i < |r.1| ==> !r.1[i].isBaseline
    ensures r.0.Ok? ==> r.0.value.routeId == routeId && r.0.value.isBaseline && r.0.value in r.1
    ensures r.0.Ok? ==> forall i :: 0 <= i < |r.1| && r.1[i].isBaseline ==> r.1[i] == r.0.value
    ensures r.0.Ok? && UniqueRouteIds(routes) ==>
      forall i :: 0 <= i < |r.1| ==> (r.1[i].isBaseline <==> routes[i].routeId == routeId)
  {
    var cleared := ClearBaselines(routes);
    assert forall i :: 0 <= i < |routes| ==> (HasRouteId(routeId)(cleared[i]) <==> HasRouteId(routeId)(routes[i]));
    match FirstIndex(cleared, HasRouteId(routeId))
    case None => (Err(RouteRecordNotFound(routeId)), cleared)
    case Some(i) =>
      var route := cleared[i].(isBaseline := true);
      (Ok(route), cleared[i := route])
  }

  /** Setting the same baseline twice leaves the store and the answer as
      setting it once. */
  lemma SetBaselineIdempotent(routes: Routes, routeId: string)
    ensures var (r1, routes1) := SetBaseline(routes, routeId);
      SetBaseline(routes1, routeId) == (r1, routes1)
  {
    var routes1 := SetBaseline(routes, routeId).1;
    assert ClearBaselines(routes1) == ClearBaselines(routes);
  }

  /** After a successful set, the baseline query answers the route that was set. */
  lemma SetBaselineThenFind(routes: Routes, routeId: string)
    ensures var (r, routes') := SetBaseline(routes, routeId);
      r.Ok? ==> FindBaseline(routes') == Some(r.value)
    ensures var (r, routes') := SetBaseline(routes, routeId);
      r.Err? ==> FindBaseline(routes') == None
  {
  }
}
