/** Comparing routes against the baseline: every listed route other than the
    baseline, with its percent difference from the baseline's intensity and
    its compliance against its own year's target. The store is only read. */
module ComputeComparisonUseCase {

  import opened Outcomes
  import opened Domain
  import opened Seqs
  import Calc = ComplianceCalculator
  import RouteRepository

  function NotRouteId(routeId: string): Route -> bool
  {
    (r: Route) => r.routeId != routeId
  }

  function Compare(baseline: Route, route: Route): RouteComparison
  {
    var percentDiff := Calc.PercentDiff(route.ghgIntensity, baseline.ghgIntensity);
    var target := Calc.TargetIntensity(route.year);
    RouteComparison(baseline, route, percentDiff, Calc.IsCompliant(route.ghgIntensity, target))
  }

  /** One comparison per route, in order. */
  function CompareAll(baseline: Route, routes: seq<Route>): (r: seq<RouteComparison>)
    ensures |r| == |routes|
    ensures forall k :: 0 <= k < |r| ==> r[k] == Compare(baseline, routes[k])
  {
    seq(|routes|, k requires 0 <= k < |routes| => Compare(baseline, routes[k]))
  }

  /** The routes a list of comparisons is about, in order. */
  function ComparedRoutes(comparisons: seq<RouteComparison>): (r: seq<Route>)
    ensures |r| == |comparisons|
    ensures forall k :: 0 <= k < |r| ==> r[k] == comparisons[k].comparison
  {
    seq(|comparisons|, k requires 0 <= k < |comparisons| => comparisons[k].comparison)
  }

  function Execute(routes: RouteRepository.Routes, filters: RouteFilters): (r: Outcome<seq<RouteComparison>>)
    ensures r.Err? <==> RouteRepository.FindBaseline(routes).None?
    ensures r.Err? ==> r.error == NoBaselineRoute
    ensures r.Ok? ==>
      var baseline := RouteRepository.FindBaseline(routes).value;
      var listed := RouteRepository.FindAll(routes, filters);
      && ComparedRoutes(r.value) == Filter(listed, NotRouteId(baseline.routeId))
      && (forall k :: 0 <= k < |r.value| ==>
            && r.value[k].baseline == baseline
            && r.value[k].percentDiff == Calc.PercentDiff(r.value[k].comparison.ghgIntensity, baseline.ghgIntensity)
            && (r.value[k].compliant <==>
                  r.value[k].comparison.ghgIntensity <= Calc.TargetIntensity(r.value[k].comparison.year)))
  {
    match RouteRepository.FindBaseline(routes)
    case None => Err(NoBaselineRoute)
    case Some(baseline) =>
      var listed := RouteRepository.FindAll(routes, filters);
      var compared := Filter(listed, NotRouteId(baseline.routeId));
      var result := CompareAll(baseline, compared);
      assert ComparedRoutes(result) == compared;
      Ok(result)
  }

  /** The comparison keeps exactly the listed routes other than the
      baseline: each compared route is listed and is not the baseline, and
      every listed route other than the baseline is compared. */
  lemma ComparesExactlyTheOtherRoutes(routes: RouteRepository.Routes, filters: RouteFilters)
    requires RouteRepository.FindBaseline(routes).Some?
    ensures var baseline := RouteRepository.FindBaseline(routes).value;
      var listed := RouteRepository.FindAll(routes, filters);
      var compared := ComparedRoutes(Execute(routes, filters).value);
      && (forall k :: 0 <= k < |compared| ==> compared[k] in listed && compared[k].routeId != baseline.routeId)
      && (forall i :: 0 <= i < |listed| && listed[i].routeId != baseline.routeId ==> listed[i] in compared)
  {
    var baseline := RouteRepository.FindBaseline(routes).value;
    var listed := RouteRepository.FindAll(routes, filters);
    forall i | 0 <= i < |listed| && listed[i].routeId != baseline.routeId
      ensures NotRouteId(baseline.routeId)(listed[i])
    {
    }
  }

  /** When the listing holds nothing but the baseline, the comparison is empty. */
  lemma OnlyBaselineListedGivesNoComparisons(routes: RouteRepository.Routes, filters: RouteFilters)
    requires RouteRepository.FindBaseline(routes).Some?
    requires forall i :: 0 <= i < |RouteRepository.FindAll(routes, filters)| ==>
      RouteRepository.FindAll(routes, filters)[i].routeId == RouteRepository.FindBaseline(routes).value.routeId
    ensures Execute(routes, filters) == Ok([])
  {
    var baseline := RouteRepository.FindBaseline(routes).value;
    FilterNone(RouteRepository.FindAll(routes, filters), NotRouteId(baseline.routeId));
  }
}
