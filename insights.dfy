/** `latest_insights`: the access guard, the last-four window over the
    client's live assessments (oldest first) and the absence message. */
module InsightsRoutes {
  import opened Models
  import opened Access
  import opened WellbeingService

  /** How many of the most recent assessments the route keeps. */
  const TrendWindow := 4

  datatype Response = Forbidden | NoAssessmentsYet | Latest(trend: Trend)

  /** `assessments[-4:]` when there are more than four, else the whole list. */
  function Window<T>(xs: seq<T>): (w: seq<T>)
    ensures |w| <= TrendWindow
    ensures |xs| <= TrendWindow ==> w == xs
    ensures |w| == if |xs| <= TrendWindow then |xs| else TrendWindow
    ensures w == xs[|xs| - |w|..]
  {
    if |xs| > TrendWindow then xs[|xs| - TrendWindow..] else xs
  }

  /** For a non-empty list the trend over the window equals the trend over the
      whole list, because only the last two elements are used. */
  lemma WindowKeepsTrend(xs: seq<Loaded>)
    ensures ComputeTrend(Window(xs)) == ComputeTrend(xs)
  {
    if |xs| > TrendWindow {
      assert Window(xs) == xs[|xs| - TrendWindow..];
      TrendUsesLastTwo(xs, |xs| - TrendWindow);
    }
  }

  /** `latest_insights(client_id)` where `timeline` is the client's live
      assessments ordered by week, oldest first. */
  function LatestInsights(caller: Principal, clientId: int, timeline: seq<Loaded>): (r: Response)
    ensures r.Forbidden? <==> !CanAccessClient(caller, clientId)
    ensures r.NoAssessmentsYet? <==> CanAccessClient(caller, clientId) && |timeline| == 0
    ensures r.Latest? ==> ComputeTrend(timeline) == Some(r.trend)
  {
    if !CanAccessClient(caller, clientId) then Forbidden
    else
      WindowKeepsTrend(timeline);
      match ComputeTrend(Window(timeline))
      case None => NoAssessmentsYet
      case Some(t) => Latest(t)
  }
}
