/** Setting the baseline route: an unknown routeId is rejected before the
    store is touched; a known one is set through the store's clear-then-set. */
module SetBaselineUseCase {

  import opened Outcomes
  import opened Domain
  import RouteRepository

  function Execute(routes: RouteRepository.Routes, routeId: string): (r: (Outcome<Route>, RouteRepository.Routes))
    ensures r.0.Err? <==> RouteRepository.FindByRouteId(routes, routeId).None?
    ensures r.0.Err? ==> r.0.error == RouteNotFound(routeId) && r.1 == routes
    ensures r.0.Ok? ==>
      && r == RouteRepository.SetBaseline(routes, routeId)
      && r.0.value.routeId == routeId && r.0.value.isBaseline
      && RouteRepository.FindBaseline(r.1) == Some(r.0.value)
      && RouteRepository.AtMostOneBaseline(r.1)
      && (exists i :: 0 <= i < |r.1| && r.1[i].isBaseline)
    ensures r.0.Ok? && RouteRepository.UniqueRouteIds(routes) ==>
      forall i :: 0 <= i < |r.1| ==> (r.1[i].isBaseline <==> routes[i].routeId == routeId)
  {
    match RouteRepository.FindByRouteId(routes, routeId)
    case None => (Err(RouteNotFound(routeId)), routes)
    case Some(_) =>
      var result := RouteRepository.SetBaseline(routes, routeId);
      RouteRepository.SetBaselineThenFind(routes, routeId);
      result
  }

  /** Setting the same baseline twice gives the state of setting it once. */
  lemma ExecuteIdempotent(routes: RouteRepository.Routes, routeId: string)
    ensures var (r1, routes1) := Execute(routes, routeId);
      Execute(routes1, routeId) == (r1, routes1)
  {
    var (r1, routes1) := Execute(routes, routeId);
    if r1.Ok? {
      RouteRepository.SetBaselineIdempotent(routes, routeId);
    }
  }
}
