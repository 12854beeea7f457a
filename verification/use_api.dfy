/** The data-fetching hooks (frontend/hooks/use-api.ts), as pure state
    transitions: each hook's state before a request, the request's outcome
    as a parameter, and the state (plus what is thrown or reported) after
    it settles. Timers and React scheduling are outside the model. */
module UseApi {
  import opened Wrappers
  import opened Text
  import opened ApiClient

  /** `err instanceof Error ? err.message : fallback`. */
  function ErrorText(err: Thrown, fallback: Str): (r: Str)
    ensures err.NonError? ==> r == fallback
    ensures !err.NonError? ==> r == err.message
  {
    if err.NonError? then fallback else err.message
  }

  // ---------------------------------------------------------------------
  // useHealthCheck

  /** `isHealthy` is `None` until the first check settles. */
  datatype HealthState = HealthState(isHealthy: Option<bool>, isLoading: bool)

  const HealthStart := HealthState(None, true)

  /** One `checkHealth` run: healthy exactly when the request resolved. */
  function CheckHealth<T>(st: HealthState, outcome: Result<T, Thrown>): (r: HealthState)
    ensures r.isHealthy == Some(outcome.Ok?) && !r.isLoading
  {
    HealthState(Some(outcome.Ok?), false)
  }

  /** The state after the initial check and the interval's repeats. */
  function HealthAfter(outcomes: seq<Result<(), Thrown>>): HealthState {
    if |outcomes| == 0 then HealthStart
    else CheckHealth(HealthAfter(outcomes[..|outcomes| - 1]), outcomes[|outcomes| - 1])
  }

  /** Once any check has settled, loading is over for good and the flag
      reports the most recent check only. */
  lemma {:induction false} HealthReflectsLatest(outcomes: seq<Result<(), Thrown>>)
    ensures |outcomes| == 0 ==> HealthAfter(outcomes) == HealthStart
    ensures |outcomes| > 0 ==>
              HealthAfter(outcomes) == HealthState(Some(outcomes[|outcomes| - 1].Ok?), false)
  {
  }

  // ---------------------------------------------------------------------
  // usePolicies / useDocuments

  datatype PageInfo = PageInfo(page: int, pageSize: int, total: int)

  /** The `data` of a listing response. */
  datatype ListPage<T> = ListPage(items: seq<T>, page: int, pageSize: int, total: int)

  datatype ListState<T> = ListState(items: seq<T>, loading: bool, error: Option<Str>, pagination: PageInfo)

  /** Before the first fetch: nothing listed, loading, page 1 of 10. */
  function ListStart<T>(): (r: ListState<T>)
    ensures r.items == [] && r.loading && r.error.None?
  {
    ListState([], true, None, PageInfo(1, 10, 0))
  }

  const PoliciesFallback := "Failed to fetch policies"
  const DocumentsFallback := "Failed to fetch documents"

  /** `fetchPolicies`: the response replaces the list and its pagination; a
      failure keeps the previous list and reports the error's message. */
  function FetchList<T>(st: ListState<T>, outcome: Result<ListPage<T>, Thrown>, fallback: Str): (r: ListState<T>)
    ensures !r.loading
    ensures r.error.None? <==> outcome.Ok?
    ensures outcome.Ok? ==>
              r.items == outcome.value.items
              && r.pagination == PageInfo(outcome.value.page, outcome.value.pageSize, outcome.value.total)
    ensures outcome.Err? ==>
              r.items == st.items && r.pagination == st.pagination
              && r.error == Some(ErrorText(outcome.error, fallback))
  {
    match outcome
    case Ok(p) => ListState(p.items, false, None, PageInfo(p.page, p.pageSize, p.total))
    case Err(e) => st.(loading := false, error := Some(ErrorText(e, fallback)))
  }

  function FetchPolicies<T>(st: ListState<T>, outcome: Result<ListPage<T>, Thrown>): ListState<T> {
    FetchList(st, outcome, PoliciesFallback)
  }

  /** The first fetch after mount: a success lists the page it received,
      a failure keeps the empty list on page 1 of 10 and shows the error's
      message; either way loading is over. */
  lemma FirstFetch<T>(outcome: Result<ListPage<T>, Thrown>, fallback: Str)
    ensures var r := FetchList(ListStart<T>(), outcome, fallback);
            && !r.loading
            && (outcome.Ok? ==> r.items == outcome.value.items && r.error.None?
                                && r.pagination.total == outcome.value.total)
            && (outcome.Err? ==> r.items == [] && r.pagination == PageInfo(1, 10, 0)
                                 && r.error == Some(if outcome.error.NonError? then fallback else outcome.error.message))
  {
  }

  /** A refetch with the same outcome changes nothing further. */
  lemma RefetchIdempotent<T>(st: ListState<T>, outcome: Result<ListPage<T>, Thrown>, fallback: Str)
    ensures FetchList(FetchList(st, outcome, fallback), outcome, fallback) == FetchList(st, outcome, fallback)
  {
  }

  /** `fetchDocuments`: like `fetchPolicies`, except that a fetch started
      after unmount (`shouldFetch` false) does nothing, and one that settles
      when the hook's current controller has been aborted (`aborted`: the
      unmount cleanup ran) writes nothing after setting `loading` and
      clearing the error. */
  function FetchDocuments<T>(st: ListState<T>, shouldFetch: bool, aborted: bool,
                             outcome: Result<ListPage<T>, Thrown>): (r: ListState<T>)
    ensures !shouldFetch ==> r == st
    ensures shouldFetch && aborted ==> r == st.(loading := true, error := None)
  {
    if !shouldFetch then st
    else if aborted then st.(loading := true, error := None)
    else FetchList(st.(loading := true, error := None), outcome, DocumentsFallback)
  }

  /** A fetch that runs to completion behaves as the policies hook does,
      with its own fallback message. */
  lemma DocumentsLikePolicies<T>(st: ListState<T>, outcome: Result<ListPage<T>, Thrown>)
    ensures var r := FetchDocuments(st, true, false, outcome);
            && !r.loading
            && (r.error.None? <==> outcome.Ok?)
            && (outcome.Ok? ==> r.items == outcome.value.items)
            && (outcome.Err? ==> r.items == st.items && r.error == Some(ErrorText(outcome.error, DocumentsFallback)))
  {
  }

  // ---------------------------------------------------------------------
  // useUpload

  datatype UploadState = UploadState(uploading: bool, error: Option<Str>)

  const RateLimitText := "Rate limit reached. Please add your API key to continue."

  const UploadFallback := "Upload failed"

  /** What an upload settles to: the hook's state, the value resolved or the
      error rethrown, and the message handed to the optional rate-limit
      callback. */
  datatype UploadSettled<R> = UploadSettled(state: UploadState, result: Result<R, Thrown>, notified: Option<Str>)

  /** `uploadDocument` and `uploadPolicy` (the same body around different
      requests). A rate-limited `ApiError` is reported to the callback, shown
      as a fixed text and rethrown as is; any other failure is rethrown as a
      new `Error` carrying the message shown. */
  function Upload<R>(outcome: Result<R, Thrown>, hasCallback: bool): (r: UploadSettled<R>)
    ensures !r.state.uploading
    ensures r.result.Ok? <==> outcome.Ok?
    ensures outcome.Ok? ==> r.result == outcome && r.state.error.None? && r.notified.None?
    ensures r.notified.Some? <==> hasCallback && outcome.Err? && outcome.error.ApiError? && outcome.error.isRateLimit
    ensures r.notified.Some? ==> r.notified.value == outcome.error.message
  {
    match outcome
    case Ok(v) => UploadSettled(UploadState(false, None), Ok(v), None)
    case Err(e) =>
      if e.ApiError? && e.isRateLimit then
        UploadSettled(UploadState(false, Some(RateLimitText)), Err(e), if hasCallback then Some(e.message) else None)
      else
        var m := ErrorText(e, UploadFallback);
        UploadSettled(UploadState(false, Some(m)), Err(PlainError(m)), None)
  }

  /** What V8 throws for `x instanceof undefined`. */
  const InstanceofUndefined := "Right-hand side of 'instanceof' is not an object"

  /** `uploadDocument` and `uploadPolicy` as written: the API module
      exports no `ApiError`, so the imported name is `undefined` and the
      first test of the catch block throws a TypeError. The error state
      stays as `setError(null)` left it, no callback runs, and the
      TypeError escapes in place of the failure. */
  function UploadAsWritten<R>(outcome: Result<R, Thrown>, hasCallback: bool): (r: UploadSettled<R>)
    ensures !r.state.uploading && r.state.error.None? && r.notified.None?
    ensures r.result.Ok? <==> outcome.Ok?
    ensures outcome.Ok? ==> r == Upload(outcome, hasCallback)
    ensures outcome.Err? ==> r.result == Err(TypeError(InstanceofUndefined))
  {
    match outcome
    case Ok(v) => UploadSettled(UploadState(false, None), Ok(v), None)
    case Err(_) => UploadSettled(UploadState(false, None), Err(TypeError(InstanceofUndefined)), None)
  }

  /** As written, no failure is ever shown and every failure escapes as the
      same TypeError, so a rate limit cannot be told from any other error;
      the corrected hook shows each failure and rethrows the rate limit as
      it came. */
  lemma UploadFailureHidden<R>(e1: Thrown, e2: Thrown, hasCallback: bool)
    ensures UploadAsWritten<R>(Err(e1), hasCallback) == UploadAsWritten<R>(Err(e2), hasCallback)
    ensures UploadAsWritten<R>(Err(e1), hasCallback).state.error.None?
    ensures Upload<R>(Err(e1), hasCallback).state.error.Some?
    ensures e1.ApiError? && e1.isRateLimit ==> Upload<R>(Err(e1), hasCallback).result == Err(e1)
  {
  }

  /** Every failure leaves an error on screen; apart from the rate limit it
      is exactly the message of what is rethrown. */
  lemma UploadErrorShown<R>(outcome: Result<R, Thrown>, hasCallback: bool)
    requires outcome.Err?
    ensures Upload(outcome, hasCallback).state.error.Some?
    ensures !(outcome.error.ApiError? && outcome.error.isRateLimit) ==>
              Upload(outcome, hasCallback).result == Err(PlainError(Upload(outcome, hasCallback).state.error.value))
    ensures outcome.error.ApiError? && outcome.error.isRateLimit ==>
              Upload(outcome, hasCallback).result == outcome
              && Upload(outcome, hasCallback).state.error == Some(RateLimitText)
  {
  }

  /** A caller that catches the rethrown error and passes it through the
      hook again sees the same state and the same error: rethrowing loses
      nothing but the error's class. */
  lemma UploadRethrowStable<R>(outcome: Result<R, Thrown>, hasCallback: bool)
    ensures var first := Upload(outcome, hasCallback);
            var second := Upload(first.result, hasCallback);
            second.state == first.state && second.result == first.result
  {
  }
}
