/**
  How a view's failure becomes a response. A view either returns a context or
  raises; `dispatch_request` turns the three HTTP exception kinds into status
  codes and hands them to the route's error function, which is `deal_error`
  in the chosen output mode. Any other exception escapes the view.
 */
module HttpErrors {

  import opened Wrappers

  /** The exceptions a view's `get_objects` can raise. */
  datatype Exc =
    | Http500Error
    | Http404Error
    | Http403Error
    | UncaughtError   // any other exception, e.g. an IndexError

  /** What `get_objects` does: returns a context or raises. */
  datatype ViewOutcome<+T> = Returned(value: T) | Raised(error: Exc)

  /** The bodies `deal_404_error`, `deal_500_error` and `deal_403_error` produce. */
  datatype ErrorPage =
    | JsonError(error: int)                   // jsonify(dict(error=code))
    | HtmlError(template: string, status: int)  // render_template('<code>.html'), code

  datatype DealFailure = UnimplementedHttpError(code: int)

  /** The response a request ends with. */
  datatype Response<+T> =
    | Rendered(context: T)
    | ErrorResponse(page: ErrorPage)
    | Escaped(error: Exc)                     // the exception leaves the view
    | DealErrorRaised(failure: DealFailure)

  /** The status code `dispatch_request` attaches to an exception, if any. */
  function HttpCode(e: Exc): Option<int>
  {
    match e
    case Http500Error => Some(500)
    case Http404Error => Some(404)
    case Http403Error => Some(403)
    case UncaughtError => None
  }

  /** The status code an error page reports, as JSON field or as HTTP status. */
  function PageCode(p: ErrorPage): int
  {
    match p
    case JsonError(code) => code
    case HtmlError(_, code) => code
  }

  /** One of `deal_404_error`, `deal_500_error`, `deal_403_error`. */
  function ErrorPageFor(code: int, mode: string): (r: ErrorPage)
    ensures PageCode(r) == code
    ensures r.JsonError? <==> mode == "json"
    ensures r.HtmlError? && code == 404 ==> r.template == "404.html"
    ensures r.HtmlError? && code == 500 ==> r.template == "500.html"
    ensures r.HtmlError? && code == 403 ==> r.template == "403.html"
  {
    if mode == "json" then JsonError(code)
    else HtmlError(if code == 404 then "404.html" else if code == 500 then "500.html" else "403.html", code)
  }

  /** `deal_error`: routes 404, 500 and 403 to their handlers and raises for any other code. */
  function DealError(code: int, mode: string): (r: Result<ErrorPage, DealFailure>)
    ensures r.Success? <==> code in {403, 404, 500}
    ensures r.Failure? ==> r.error == UnimplementedHttpError(code)
    ensures r.Success? ==> r.value == ErrorPageFor(code, mode)
    // consequences of the equality above and the contract of ErrorPageFor
    ensures r.Success? ==> PageCode(r.value) == code
    ensures r.Success? ==> (r.value.JsonError? <==> mode == "json")
  {
    if code == 404 then Success(ErrorPageFor(404, mode))
    else if code == 500 then Success(ErrorPageFor(500, mode))
    else if code == 403 then Success(ErrorPageFor(403, mode))
    else Failure(UnimplementedHttpError(code))
  }

  /**
    `GeneralView.dispatch_request` with `deal_error` in `mode` as the error
    function: a returned context is rendered, an HTTP exception is answered by
    the route mode's error page for its code, anything else escapes.
   */
  function DispatchRequest<T>(o: ViewOutcome<T>, mode: string): (r: Response<T>)
    ensures o.Returned? ==> r == Rendered(o.value)
    ensures o.Raised? && HttpCode(o.error).Some? ==>
      r == ErrorResponse(ErrorPageFor(HttpCode(o.error).value, mode))
    // a consequence of the equality above and the contract of ErrorPageFor
    ensures o.Raised? && HttpCode(o.error).Some? ==>
      r.ErrorResponse? && PageCode(r.page) == HttpCode(o.error).value
    ensures o.Raised? && HttpCode(o.error).None? ==> r == Escaped(o.error)
    ensures !r.DealErrorRaised?
  {
    match o
    case Returned(ctx) => Rendered(ctx)
    case Raised(e) =>
      match HttpCode(e)
      case None => Escaped(e)
      case Some(code) =>
        match DealError(code, mode)
        case Success(page) => ErrorResponse(page)
        case Failure(f) => DealErrorRaised(f)
  }
}
