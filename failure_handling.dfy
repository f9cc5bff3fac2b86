/** The decision helpers of the test base class: how a thrown error, an API
    rate-limit error and a rendered-string pair become a test verdict. */
module FailureHandling {
  import opened Outcomes
  import opened JavaStrings

  /** A thrown Java error. `statusCode` is present exactly when the error is a
      `NetworkException` (or a subclass), and is then its HTTP status code. */
  datatype Throwable = Throwable(className: string, message: Option<string>, statusCode: Option<int>)

  /** A 5xx response: the remote service is at fault, not the code under test. */
  predicate IsServerError(t: Throwable) {
    t.statusCode.Some? && 500 <= t.statusCode.value < 600
  }

  /** The failure text of `handle`: the error's message, or its class name when it has none. */
  function FailureText(t: Throwable): (s: string)
    ensures t.message.Some? ==> s == t.message.value
    ensures t.message.None? ==> s == t.className
  {
    if t.message.None? then t.className else t.message.value
  }

  /** `handle`: a server error becomes a skip naming its status code; every other
      error fails the test. The helper never lets a test pass. */
  function Handle(t: Throwable): (r: Outcome)
    ensures r != Pass
    ensures r.Skip? <==> IsServerError(t)
    ensures r.Skip? ==> r.msg == "Received " + Decimal(t.statusCode.value) + ", skipping"
    ensures r.Fail? ==> r.msg == FailureText(t)
  {
    if IsServerError(t) then
      Skip("Received " + Decimal(t.statusCode.value) + ", skipping")
    else
      Fail(FailureText(t))
  }

  /** Two skips of `handle` with the same message come from the same status code:
      the skip message identifies the response. */
  lemma HandleSkipIdentifiesCode(t1: Throwable, t2: Throwable)
    requires Handle(t1).Skip? && Handle(t1) == Handle(t2)
    ensures t1.statusCode == t2.statusCode
  {
    var m := Handle(t1).msg;
    var d1 := Decimal(t1.statusCode.value);
    var d2 := Decimal(t2.statusCode.value);
    assert m == "Received " + d1 + ", skipping";
    assert m == "Received " + d2 + ", skipping";
    assert |d1| == |d2|;
    assert d1 == m[9..9 + |d1|] == d2;
    DecimalInjective(t1.statusCode.value, t2.statusCode.value);
  }

  /** A 503 from the network layer is skipped with the message "Received 503, skipping". */
  lemma HandleServiceUnavailable(message: Option<string>)
    ensures Handle(Throwable("net.dean.jraw.http.NetworkException", message, Some(503)))
            == Skip("Received 503, skipping")
  {
  }

  /** An error the API returned: its reason code, its explanation and its message. */
  datatype ApiError = ApiError(reason: string, explanation: Option<string>, message: Option<string>)

  const QuotaFilled := "QUOTA_FILLED"
  const RateLimit := "RATELIMIT"

  /** `isRateLimit`: an exact, case-sensitive comparison of the reason code. */
  predicate IsRateLimit(e: ApiError)
    ensures IsRateLimit(e) <==> e.reason == QuotaFilled || e.reason == RateLimit
    ensures IsRateLimit(e) ==> ToUpperCase(e.reason) == e.reason
  {
    e.reason == QuotaFilled || e.reason == RateLimit
  }

  /** The reason comparison is case-sensitive: a lower-case "ratelimit" is not a rate limit. */
  lemma RateLimitIsCaseSensitive(explanation: Option<string>, message: Option<string>)
    ensures !IsRateLimit(ApiError("ratelimit", explanation, message))
    ensures IsRateLimit(ApiError("RATELIMIT", explanation, message))
  {
  }

  /** The `switch` of `handlePostingQuota` on the upper-cased reason: the skip message for
      each of the two recognised reasons, and no message for any other. */
  function QuotaSkipMessage(upperReason: string, caller: string, explanation: Option<string>): (msg: Option<string>)
    ensures msg.Some? <==> upperReason == QuotaFilled || upperReason == RateLimit
  {
    if upperReason == QuotaFilled then
      Some("Skipping " + caller + "(), link posting quota has been filled for this user")
    else if upperReason == RateLimit then
      Some("Skipping " + caller + "(), reached ratelimit (" + ValueOf(explanation) + ")")
    else
      None
  }

  /** `handlePostingQuota`, with the name of the calling test method passed in as `caller`.
      An error that is not a rate limit fails with the error's message; a rate limit is
      looked up by its upper-cased reason and skipped, falling back to a failure when
      the lookup finds nothing. */
  function HandlePostingQuota(e: ApiError, caller: string): (r: Outcome)
    ensures r != Pass
    ensures !IsRateLimit(e) ==> r == Fail(ValueOf(e.message))
    ensures r.Skip? ==> IsRateLimit(e)
  {
    if !IsRateLimit(e) then
      Fail(ValueOf(e.message))
    else
      match QuotaSkipMessage(ToUpperCase(e.reason), caller, e.explanation)
      case Some(msg) => Skip(msg)
      case None => Fail(ValueOf(e.message))
  }

  /** The fallback `Assert.fail` after the switch cannot be reached: once `isRateLimit`
      holds, the reason is one of two capitalised literals, upper-casing keeps it,
      and the switch always produces a message. */
  lemma PostingQuotaFallbackUnreachable(e: ApiError, caller: string)
    requires IsRateLimit(e)
    ensures ToUpperCase(e.reason) == e.reason
    ensures QuotaSkipMessage(ToUpperCase(e.reason), caller, e.explanation).Some?
  {
    UpperCaseKeepsCapitals(e.reason);
  }

  /** `handlePostingQuota` skips exactly the rate-limit errors, with the message that
      belongs to the reason, and fails every other error with the error's message. */
  lemma PostingQuotaSkipsExactlyRateLimits(e: ApiError, caller: string)
    ensures HandlePostingQuota(e, caller).Skip? <==> IsRateLimit(e)
    ensures e.reason == QuotaFilled ==>
              HandlePostingQuota(e, caller)
              == Skip("Skipping " + caller + "(), link posting quota has been filled for this user")
    ensures e.reason == RateLimit ==>
              HandlePostingQuota(e, caller)
              == Skip("Skipping " + caller + "(), reached ratelimit (" + ValueOf(e.explanation) + ")")
  {
    if IsRateLimit(e) {
      PostingQuotaFallbackUnreachable(e, caller);
    }
  }

  /** A rate limit with explanation "60s" met by a test method, `postComment` say, is skipped
      with the message "Skipping postComment(), reached ratelimit (60s)". */
  lemma PostingQuotaRateLimitScenario(e: ApiError, caller: string)
    requires e.reason == RateLimit && e.explanation == Some("60s")
    ensures HandlePostingQuota(e, caller) == Skip("Skipping " + caller + "(), reached ratelimit (60s)")
  {
    PostingQuotaSkipsExactlyRateLimits(e, caller);
  }

  /** A markdown text and its rendered HTML, either of which may be null. */
  datatype RenderStringPair = RenderStringPair(md: Option<string>, html: Option<string>)

  /** The message of TestNG's `assertNotNull` when its argument is null. */
  const NotNullMessage := "expected object to not be null"

  /** `validateRenderString`: three not-null assertions, on the pair and on each of its strings. */
  function ValidateRenderString(pair: Option<RenderStringPair>): (r: Outcome)
    ensures r == Pass <==> pair.Some? && pair.value.md.Some? && pair.value.html.Some?
    ensures r != Pass ==> r == Fail(NotNullMessage)
  {
    if pair.None? || pair.value.md.None? || pair.value.html.None? then Fail(NotNullMessage) else Pass
  }
}
