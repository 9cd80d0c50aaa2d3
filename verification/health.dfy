/** `IsHealthy`: the outcome of a health probe and its conversion to a result. */
module Health {
  import opened Wrappers
  import opened Common

  datatype IsHealthy = IsHealthy(healthy: bool)

  /** `IsHealthy::new`. */
  function New(isHealthy: bool): (h: IsHealthy)
    ensures Value(h) == isHealthy
  {
    IsHealthy(isHealthy)
  }

  /** `IsHealthy::value`. */
  function Value(h: IsHealthy): bool
  {
    h.healthy
  }

  /** `to_result`: a healthy value passes through, an unhealthy one is `Unhealthy`. */
  function ToResult(h: IsHealthy): (r: Result<IsHealthy, CoreError>)
    ensures r.Ok? <==> Value(h)
    ensures r.Ok? ==> Value(r.value)
    ensures r.Err? ==> r.error == Unhealthy
  {
    if Value(h) then Ok(IsHealthy(h.healthy)) else Err(Unhealthy)
  }

  /** Constructing and converting: the result is `Ok` exactly for a healthy probe, and nothing is lost. */
  lemma ToResultOfNew(b: bool)
    ensures ToResult(New(b)).Ok? <==> b
    ensures ToResult(New(b)).Ok? ==> ToResult(New(b)).value == New(b)
    ensures !b ==> ToResult(New(b)) == Err(Unhealthy)
  {
  }
}
