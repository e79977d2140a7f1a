/** LoadModelWithRetryAsync: up to three attempts at loading the speech model,
    with a retry message after each failed attempt but the last; the failure of
    the last attempt propagates. Whether attempt `a` succeeds is the parameter
    `succeeds(a)` (the model loader itself is external). */
module Bootstrap {

  const MaxRetries: nat := 3

  /** How loading went: whether a model was returned, the attempt that ended the
      loop, and how many "Retrying..." messages were written. A load that is not
      `loaded` is the exception of the last attempt escaping to the caller. */
  datatype LoadReport = LoadReport(loaded: bool, attempts: nat, retries: nat)

  /** LoadModelWithRetryAsync. */
  method LoadModelWithRetry(succeeds: nat -> bool) returns (r: LoadReport)
    ensures r.loaded <==> exists a :: 1 <= a <= MaxRetries && succeeds(a)
    ensures 1 <= r.attempts <= MaxRetries
    ensures r.loaded ==> succeeds(r.attempts)
    ensures forall a :: 1 <= a < r.attempts ==> !succeeds(a)
    ensures !r.loaded ==> r.attempts == MaxRetries
    ensures r.retries == r.attempts - 1
  {
    var attempt := 1;
    var retries := 0;
    while attempt <= MaxRetries
      invariant 1 <= attempt <= MaxRetries
      invariant retries == attempt - 1
      invariant forall a :: 1 <= a < attempt ==> !succeeds(a)
    {
      if succeeds(attempt) {
        return LoadReport(true, attempt, retries);
      }
      if attempt == MaxRetries {
        // the exception filter `attempt < maxRetries` is false: the error escapes
        return LoadReport(false, attempt, retries);
      }
      retries := retries + 1;
      attempt := attempt + 1;
    }
    // The final LoadModelAsync call after the loop is never reached.
    assert false;
  }
}
