/**
 * The cron endpoint of src/api/routes/cron.py: `POST /cron/update-cds`
 * checks the bearer token against the `CRON_SECRET` variable and then runs
 * the scraper.  The value of the variable, the `Authorization` header, the
 * outcome of the run and the clock are parameters.
 */
module Cron {
  import opened Wrappers
  import opened Strings

  const BearerPrefix := "Bearer "
  const Unauthorized := 401
  const InternalServerError := 500
  const SuccessMessage := "CDS data updated successfully"
  const FailurePrefix := "Update failed: "

  /** Why a request was turned away, one per 401 detail. */
  datatype AuthFailure = MissingHeader | InvalidFormat | InvalidToken

  /** The endpoint checks tokens only when the secret is set to a non-empty value. */
  predicate Protected(secret: Option<string>) {
    secret.Some? && secret.value != []
  }

  /** The header is absent or empty. */
  predicate Blank(header: Option<string>) {
    header.None? || header.value == []
  }

  /**
   * The token check: no secret lets every request through; otherwise the
   * header must be present, start with "Bearer " (case matters), and the
   * rest of it must be the secret.
   */
  function Authorize(secret: Option<string>, header: Option<string>): (r: Option<AuthFailure>)
    ensures r == None <==> !Protected(secret) || header == Some(BearerPrefix + secret.value)
    ensures r == Some(MissingHeader) <==> Protected(secret) && Blank(header)
    ensures r == Some(InvalidFormat) <==>
      Protected(secret) && !Blank(header) && !StartsWith(header.value, BearerPrefix)
    ensures r == Some(InvalidToken) ==> StartsWith(header.value, BearerPrefix)
  {
    if !Protected(secret) then None
    else if Blank(header) then Some(MissingHeader)
    else if !StartsWith(header.value, BearerPrefix) then Some(InvalidFormat)
    else
      var token := header.value[|BearerPrefix|..];
      assert header.value == BearerPrefix + token;
      if token != secret.value then Some(InvalidToken) else None
  }

  /** The body of a successful call. */
  datatype UpdateBody = UpdateBody(
    status: string,
    message: string,
    recordsFetched: int,
    recordsInserted: int,
    recordsUpdated: int,
    timestamp: int)

  datatype Response =
    | Rejected(reason: AuthFailure)
    | UpdateFailed(detail: string)
    | Updated(body: UpdateBody)

  function StatusCode(r: Response): (code: int)
    ensures r.Rejected? <==> code == Unauthorized
    ensures r.UpdateFailed? <==> code == InternalServerError
    ensures r.Updated? <==> code == 200
  {
    match r
    case Rejected(_) => Unauthorized
    case UpdateFailed(_) => InternalServerError
    case Updated(_) => 200
  }

  /**
   * `update_cds`: `run` is the outcome of the scraper run (`None` when it
   * finished, the exception text when it raised), and `now` the UTC clock.
   * The counts in the body are placeholders: they are zero whatever the
   * run did.
   */
  function UpdateCds(secret: Option<string>, header: Option<string>,
                     run: Option<string>, now: int): (r: Response)
    ensures r.Rejected? <==> Authorize(secret, header).Some?
    ensures r.Rejected? ==> r.reason == Authorize(secret, header).value
    ensures r.UpdateFailed? <==> Authorize(secret, header) == None && run.Some?
    ensures r.UpdateFailed? ==> r.detail == FailurePrefix + run.value
    ensures r.Updated? ==> r.body.status == "success" && r.body.timestamp == now
    ensures r.Updated? ==>
      r.body.recordsFetched == 0 && r.body.recordsInserted == 0 && r.body.recordsUpdated == 0
  {
    match Authorize(secret, header)
    case Some(reason) => Rejected(reason)
    case None =>
      match run
      case Some(e) => UpdateFailed(FailurePrefix + e)
      case None => Updated(UpdateBody("success", SuccessMessage, 0, 0, 0, now))
  }

  /** A request is accepted exactly when it carries the secret as a bearer token, or no secret is set. */
  lemma AcceptedIff(secret: Option<string>, header: Option<string>, run: Option<string>, now: int)
    ensures StatusCode(UpdateCds(secret, header, run, now)) != Unauthorized <==>
      !Protected(secret) || header == Some(BearerPrefix + secret.value)
  {
  }

  /** A rejected request never reaches the scraper: its answer is the same whatever the run would do. */
  lemma RejectedBeforeRun(secret: Option<string>, header: Option<string>,
                          run1: Option<string>, run2: Option<string>, now: int)
    requires Authorize(secret, header).Some?
    ensures UpdateCds(secret, header, run1, now) == UpdateCds(secret, header, run2, now)
  {
  }

  /** The prefix is compared with its case: a lower-case scheme is a format error. */
  lemma LowerCaseBearerRejected(secret: Option<string>, token: string)
    requires Protected(secret)
    ensures Authorize(secret, Some("bearer " + token)) == Some(InvalidFormat)
  {
    assert ("bearer " + token)[0] != BearerPrefix[0];
  }
}
