/** The GET /api/cron/send-emails endpoint for external schedulers: an optional Bearer-secret
    check, then one call of the batch endpoint whose answer is wrapped. The call is an oracle
    from the requested URL to the JSON answer (as text) or the error's message; the clock gives
    the timestamp. */
module CronTrigger {
  import opened Common

  /** `Bearer ${cronSecret}`. */
  function BearerFor(secret: string): string {
    "Bearer " + secret
  }

  /** The request passes the guard: there is no secret to check (unset or empty), or the
      Authorization header carries exactly "Bearer " and the secret. A missing header never
      equals the expected text. */
  predicate Authorized(env: Env, authorization: Option<string>)
    ensures !Truthy(Lookup(env, "CRON_SECRET")) ==> Authorized(env, authorization)
    ensures Truthy(Lookup(env, "CRON_SECRET")) ==>
      (Authorized(env, authorization) <==> authorization == Some("Bearer " + env["CRON_SECRET"]))
    ensures Truthy(Lookup(env, "CRON_SECRET")) && authorization.None? ==> !Authorized(env, authorization)
  {
    var secret := Lookup(env, "CRON_SECRET");
    !Truthy(secret) || authorization == Some(BearerFor(secret.value))
  }

  const Localhost: string := "http://localhost:3000"

  /** The base URL as the source spells it: `A || B ? x : y` groups as `(A || B) ? x : y`, so
      whenever either variable is set the Vercel URL is used, even when only the public base URL
      is set (and then `${undefined}` is written into it). */
  function BaseUrlAsWritten(env: Env): (url: string)
    ensures url == Localhost <==>
      !Truthy(Lookup(env, "NEXT_PUBLIC_BASE_URL")) && !Truthy(Lookup(env, "VERCEL_URL"))
    ensures url != Localhost ==> url == "https://" + Show(Lookup(env, "VERCEL_URL"))
  {
    var public := Lookup(env, "NEXT_PUBLIC_BASE_URL");
    var vercel := Lookup(env, "VERCEL_URL");
    assert ("https://" + Show(vercel))[4] != Localhost[4];
    if Truthy(public) || Truthy(vercel) then "https://" + Show(vercel) else Localhost
  }

  /** The evidently intended choice: the public base URL if set, else the Vercel deployment, else
      the local server, as the other modules read NEXT_PUBLIC_BASE_URL. */
  function BaseUrl(env: Env): (url: string)
    ensures Truthy(Lookup(env, "NEXT_PUBLIC_BASE_URL")) ==> url == env["NEXT_PUBLIC_BASE_URL"]
    ensures !Truthy(Lookup(env, "NEXT_PUBLIC_BASE_URL")) && Truthy(Lookup(env, "VERCEL_URL")) ==>
      url == "https://" + env["VERCEL_URL"]
    ensures !Truthy(Lookup(env, "NEXT_PUBLIC_BASE_URL")) && !Truthy(Lookup(env, "VERCEL_URL")) ==>
      url == Localhost
  {
    var vercel := Lookup(env, "VERCEL_URL");
    OrElse(Lookup(env, "NEXT_PUBLIC_BASE_URL"), if Truthy(vercel) then "https://" + vercel.value else Localhost)
  }

  /** The two readings agree exactly when the public base URL is not set. */
  lemma BaseUrlAgreesWithoutPublicUrl(env: Env)
    requires !Truthy(Lookup(env, "NEXT_PUBLIC_BASE_URL"))
    ensures BaseUrlAsWritten(env) == BaseUrl(env)
  {
  }

  /** A deployment that sets only the public base URL: as written, the call goes to
      "https://undefined"; the intended reading calls the public URL. */
  lemma PublicUrlIgnored()
    ensures var env := map["NEXT_PUBLIC_BASE_URL" := "https://mail.example.com"];
      && BaseUrlAsWritten(env) == "https://undefined"
      && BaseUrl(env) == "https://mail.example.com"
  {
    var env := map["NEXT_PUBLIC_BASE_URL" := "https://mail.example.com"];
    assert "VERCEL_URL" !in env;
  }

  /** The endpoint's JSON answer. */
  datatype TriggerResponse =
    /** 401, `{ error: 'Unauthorized' }`. */
    | Unauthorized
    /** `{ success: true, message: 'Cron job executed', result, timestamp }`. */
    | Executed(result: string, timestamp: string)
    /** 500, `{ success: false, error, timestamp }`. */
    | ExecutionFailed(error: string, timestamp: string)

  /** GET /api/cron/send-emails: the answer, and the URL of the batch call made (none when
      refused). The URL is built as the source builds it; `BaseUrl` is the intended choice. */
  function Get(env: Env, authorization: Option<string>, call: string -> Result<string, string>, timestamp: string)
    : (r: (TriggerResponse, Option<string>))
    ensures r.1.None? <==> !Authorized(env, authorization)
    ensures r.0 == Unauthorized <==> !Authorized(env, authorization)
    ensures r.1.Some? ==> r.1.value == BaseUrlAsWritten(env) + "/api/send-emails"
    ensures r.1.Some? && call(r.1.value).Ok? ==> r.0 == Executed(call(r.1.value).value, timestamp)
    ensures r.1.Some? && call(r.1.value).Failure? ==> r.0 == ExecutionFailed(call(r.1.value).error, timestamp)
  {
    var secret := Lookup(env, "CRON_SECRET");
    if Truthy(secret) && authorization != Some(BearerFor(secret.value)) then (Unauthorized, None)
    else
      var url := BaseUrlAsWritten(env) + "/api/send-emails";
      match call(url)
      case Ok(data) => (Executed(data, timestamp), Some(url))
      case Failure(e) => (ExecutionFailed(e, timestamp), Some(url))
  }
}
