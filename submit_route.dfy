/**
 * The submission endpoint (`src/app/api/newsletter/submit/route.ts`): the
 * per-address rate limiter over the module's `ipSubmissions` map, the sweep
 * of expired entries, and the POST chain (rate limit, honeypot, required
 * fields, URL, description length, store). The clock is the `now`
 * parameter; URL parsing is the `urlParses` parameter; the store's answer
 * to the insert is the `storeAnswer` parameter.
 */
module SubmitRoute {
  import opened Js
  import opened Numeric
  import Supabase

  /** At most this many submissions per address per window. */
  const RateLimit := 10
  /** The window, in milliseconds: one hour. */
  const RateWindow := 60 * 60 * 1000
  const MinuteMs := 60 * 1000

  const RequiredFields := ["title", "url", "description", "category", "tags"]
  const MaxDescription := 300

  const InvalidUrl := "Invalid URL format"
  const DescriptionTooLong := "Description exceeds maximum length of 300 characters"
  const SubmitFailed := "Failed to submit newsletter"
  const CreatedMessage := "Newsletter submitted successfully. It will be reviewed before being listed."

  /** The map entry of one address: submissions counted in the window that started at `timestamp`. */
  datatype Record = Record(count: int, timestamp: int)

  datatype RateLimitResult = RateLimitResult(limited: bool, remainingTime: int)

  /** A check's answer together with the map it leaves behind. */
  datatype CheckOutcome = CheckOutcome(result: RateLimitResult, submissions: map<string, Record>)

  /** The request headers the endpoint reads. */
  datatype Headers = Headers(forwardedFor: Option<string>, realIp: Option<string>)

  /**
   * A parsed request body. The string fields are absent or strings; `tags`
   * and `honeypot` are whatever JSON the client sent.
   */
  datatype Body = Body(
    title: Option<string>,
    url: Option<string>,
    description: Option<string>,
    category: Option<string>,
    tags: JsValue,
    email: Option<string>,
    honeypot: JsValue)

  datatype Reply =
    | Success
    | Created(id: string, message: string)
    | Error(error: string)
    | RateLimited(error: string, retryAfter: int)

  /** A response: status, JSON body and the `Retry-After` header when one is sent. */
  datatype Response = Response(status: int, reply: Reply, retryAfter: Option<string>)

  /** What the validation chain makes of a body that got past the rate limiter. */
  datatype Verdict = Discard | Reject(error: string) | Accept(submission: Supabase.Submission)

  // ---------------------------------------------------------------------------
  // Rate limiting

  /** A record whose window has passed: strictly more than the window since it started. */
  predicate Expired(r: Record, now: int) {
    now - r.timestamp > RateWindow
  }

  /** Every record counts between 1 and the limit. */
  ghost predicate CountsInRange(m: map<string, Record>) {
    forall ip :: ip in m ==> 1 <= m[ip].count <= RateLimit
  }

  /** `Math.ceil((RateWindow - (now - timestamp)) / 60000)`: whole minutes until the window ends. */
  function RemainingMinutes(r: Record, now: int): (minutes: int)
    ensures !Expired(r, now) ==> minutes >= 0
    ensures !Expired(r, now) && r.timestamp <= now ==> minutes <= 60
    ensures (minutes - 1) * MinuteMs < RateWindow - (now - r.timestamp) <= minutes * MinuteMs
  {
    var minutes := CeilDiv(RateWindow - (now - r.timestamp), MinuteMs);
    assert !Expired(r, now) ==> minutes >= 0 by {
      if !Expired(r, now) && minutes < 0 { MulMonotone(minutes, -1, MinuteMs); }
    }
    assert !Expired(r, now) && r.timestamp <= now ==> minutes <= 60 by {
      if minutes > 60 { MulMonotone(60, minutes - 1, MinuteMs); }
    }
    minutes
  }

  /** `isRateLimited` on a given map: reset, count one more, or refuse. */
  function Check(m: map<string, Record>, ip: string, now: int): (out: CheckOutcome)
    ensures ip in out.submissions
    ensures forall k :: k != ip ==> (k in out.submissions <==> k in m)
    ensures forall k :: k != ip && k in m ==> out.submissions[k] == m[k]
    ensures out.result.limited ==> out.submissions == m && out.result.remainingTime >= 0
    ensures !out.result.limited ==> out.result.remainingTime == 0
    ensures CountsInRange(m) ==> CountsInRange(out.submissions)
  {
    if ip !in m || Expired(m[ip], now) then
      CheckOutcome(RateLimitResult(false, 0), m[ip := Record(1, now)])
    else if m[ip].count < RateLimit then
      CheckOutcome(RateLimitResult(false, 0), m[ip := Record(m[ip].count + 1, m[ip].timestamp)])
    else
      CheckOutcome(RateLimitResult(true, RemainingMinutes(m[ip], now)), m)
  }

  /** An address without a live record is let through and starts a new window with count 1. */
  lemma CheckStartsWindow(m: map<string, Record>, ip: string, now: int)
    requires ip !in m || Expired(m[ip], now)
    ensures Check(m, ip, now) == CheckOutcome(RateLimitResult(false, 0), m[ip := Record(1, now)])
  {
  }

  /** Within the window and under the limit, the count goes up by one and the window start is kept. */
  lemma CheckCountsOneMore(m: map<string, Record>, ip: string, now: int)
    requires ip in m && !Expired(m[ip], now) && m[ip].count < RateLimit
    ensures var out := Check(m, ip, now);
      !out.result.limited && out.submissions[ip] == Record(m[ip].count + 1, m[ip].timestamp)
  {
  }

  /** At the limit within the window, the check refuses, with a retry hint of 0 to 60 minutes, and changes nothing. */
  lemma CheckRefusesAtLimit(m: map<string, Record>, ip: string, now: int)
    requires ip in m && !Expired(m[ip], now) && m[ip].count >= RateLimit
    requires m[ip].timestamp <= now
    ensures var out := Check(m, ip, now);
      && out.result.limited && out.submissions == m
      && 0 <= out.result.remainingTime <= 60
  {
  }

  /** The retry hint is 0 when the check falls exactly at the end of the window. */
  lemma RetryHintZeroAtWindowEnd(m: map<string, Record>, ip: string)
    requires ip in m && m[ip].count >= RateLimit
    ensures var out := Check(m, ip, m[ip].timestamp + RateWindow);
      out.result.limited && out.result.remainingTime == 0
  {
    var now := m[ip].timestamp + RateWindow;
    var minutes := RemainingMinutes(m[ip], now);
    if minutes != 0 {
      MulMonotone(1, minutes, MinuteMs);
      MulMonotone(minutes - 1, -1, MinuteMs);
    }
  }

  /** The entries the sweep keeps: exactly those whose window has not passed, unchanged. */
  function Unexpired(m: map<string, Record>, now: int): (kept: map<string, Record>)
    ensures forall ip :: ip in kept <==> ip in m && !Expired(m[ip], now)
    ensures forall ip :: ip in kept ==> kept[ip] == m[ip]
  {
    map ip | ip in m && !Expired(m[ip], now) :: m[ip]
  }

  // ---------------------------------------------------------------------------
  // The request

  /** `x-forwarded-for || x-real-ip || 'unknown'`: the first present header, else the sentinel. */
  function ClientKey(h: Headers): (key: string)
    ensures Present(h.forwardedFor) ==> key == h.forwardedFor.value
    ensures !Present(h.forwardedFor) && Present(h.realIp) ==> key == h.realIp.value
    ensures !Present(h.forwardedFor) && !Present(h.realIp) ==> key == "unknown"
  {
    OrElse(h.forwardedFor, OrElse(h.realIp, "unknown"))
  }

  /** `!!submission[field]` for the required fields. */
  predicate FieldPresent(b: Body, field: string) {
    match field
    case "title" => Present(b.title)
    case "url" => Present(b.url)
    case "description" => Present(b.description)
    case "category" => Present(b.category)
    case "tags" => Truthy(b.tags)
    case _ => false
  }

  /** The first of `fields`, in order, that the body lacks. */
  function FirstMissing(b: Body, fields: seq<string>): (missing: Option<string>)
    ensures missing.None? <==> forall i :: 0 <= i < |fields| ==> FieldPresent(b, fields[i])
    ensures missing.Some? ==>
      exists k :: (0 <= k < |fields| && fields[k] == missing.value
        && !FieldPresent(b, fields[k]) && forall i :: 0 <= i < k ==> FieldPresent(b, fields[i]))
  {
    if fields == [] then None
    else if !FieldPresent(b, fields[0]) then Some(fields[0])
    else
      var rest := FirstMissing(b, fields[1..]);
      assert rest.Some? ==>
        exists k :: (0 <= k < |fields| && fields[k] == rest.value
          && !FieldPresent(b, fields[k]) && forall i :: 0 <= i < k ==> FieldPresent(b, fields[i])) by {
        if rest.Some? {
          var k :| 0 <= k < |fields[1..]| && fields[1..][k] == rest.value
            && !FieldPresent(b, fields[1..][k]) && forall i :: 0 <= i < k ==> FieldPresent(b, fields[1..][i]);
          assert fields[k + 1] == rest.value && forall i :: 0 <= i < k + 1 ==> FieldPresent(b, fields[i]);
        }
      }
      rest
  }

  /** Every required field is present: the body gets past the required-fields check. */
  predicate AllPresent(b: Body) {
    Present(b.title) && Present(b.url) && Present(b.description) && Present(b.category) && Truthy(b.tags)
  }

  /** `AllPresent` is the required-fields loop passing: no field of the list is missing. */
  lemma AllPresentIsNoneMissing(b: Body)
    ensures AllPresent(b) <==> FirstMissing(b, RequiredFields).None?
  {
    if FirstMissing(b, RequiredFields).None? {
      assert FieldPresent(b, RequiredFields[0]) && FieldPresent(b, RequiredFields[1]);
      assert FieldPresent(b, RequiredFields[2]) && FieldPresent(b, RequiredFields[3]);
      assert FieldPresent(b, RequiredFields[4]);
    }
  }

  function MissingFieldError(field: string): string {
    "Missing required field: " + field
  }

  /** The checks after the rate limit, first failure wins: honeypot, required fields, URL, description length. */
  function Validate(b: Body, urlParses: string -> bool): (v: Verdict)
    ensures Truthy(b.honeypot) ==> v == Discard
    ensures v.Accept? ==>
      && !Truthy(b.honeypot)
      && AllPresent(b)
      && urlParses(v.submission.url)
      && |v.submission.description| <= MaxDescription
      && v.submission.title == b.title.value && v.submission.url == b.url.value
      && v.submission.description == b.description.value && v.submission.category == b.category.value
      && v.submission.tags == b.tags && v.submission.email == b.email
  {
    if Truthy(b.honeypot) then Discard
    else
      var missing := FirstMissing(b, RequiredFields);
      if missing.Some? then Reject(MissingFieldError(missing.value))
      else
        AllPresentIsNoneMissing(b);
        if !urlParses(b.url.value) then Reject(InvalidUrl)
        else if |b.description.value| > MaxDescription then Reject(DescriptionTooLong)
        else Accept(Supabase.Submission(b.title.value, b.url.value, b.description.value, b.category.value,
                                        b.tags, b.email))
  }

  /**
   * The 429 response: the hint in minutes in the body, and in seconds in
   * `Retry-After`, whose digits read back as sixty times the hint.
   */
  function RateLimitResponse(minutes: int): (r: Response)
    ensures r.status == 429 && r.reply.RateLimited? && r.reply.retryAfter == minutes
    ensures r.retryAfter.Some?
    ensures minutes >= 0 ==> IsDigits(r.retryAfter.value) && DecimalValue(r.retryAfter.value) == minutes * 60
  {
    ShowIntReadsBack(minutes * 60);
    Response(429, RateLimited("Rate limit exceeded. Please try again in " + ShowInt(minutes) + " minutes.", minutes),
             Some(ShowInt(minutes * 60)))
  }

  const ServerError := Response(500, Error(SubmitFailed), None)

  /** The POST chain's answer, given the rate limiter's result and the store's answer to an insert. */
  function Respond(limit: RateLimitResult, body: Option<Body>, urlParses: string -> bool,
                   storeAnswer: Option<string>): (r: Response)
    ensures r.status == 429 <==> limit.limited
    ensures r.status in {200, 400, 429, 500}
    ensures r.retryAfter.Some? <==> r.status == 429
  {
    if limit.limited then RateLimitResponse(limit.remainingTime)
    else if body.None? then ServerError
    else
      match Validate(body.value, urlParses)
      case Discard => Response(200, Success, None)
      case Reject(e) => Response(400, Error(e), None)
      case Accept(sub) =>
        match Supabase.SubmitNewsletter(sub, storeAnswer)
        case Ok(id) => Response(200, Created(id, CreatedMessage), None)
        case Err(_) => ServerError
  }

  /** The row handed to the store, if the chain gets that far. */
  function Inserted(limit: RateLimitResult, body: Option<Body>, urlParses: string -> bool)
    : (row: Option<Supabase.SubmissionRow>)
    ensures row.Some? ==> !row.value.approved
    ensures row.Some? <==> !limit.limited && body.Some? && Validate(body.value, urlParses).Accept?
  {
    if !limit.limited && body.Some? && Validate(body.value, urlParses).Accept? then
      Some(Supabase.InsertedRow(Validate(body.value, urlParses).submission))
    else None
  }

  /**
   * The success path: past the limiter, an accepted body whose insert the
   * store answers gets 200 with the new id and the review message, and the
   * row inserted is the accepted submission as an unapproved row.
   */
  lemma AcceptedIsCreated(limit: RateLimitResult, b: Body, urlParses: string -> bool, id: string)
    requires !limit.limited && Validate(b, urlParses).Accept?
    ensures Respond(limit, Some(b), urlParses, Some(id)) == Response(200, Created(id, CreatedMessage), None)
    ensures Inserted(limit, Some(b), urlParses) == Some(Supabase.InsertedRow(Validate(b, urlParses).submission))
    ensures var sub := Validate(b, urlParses).submission;
      && sub.title == b.title.value && sub.url == b.url.value
      && sub.description == b.description.value && sub.category == b.category.value
  {
  }

  /** A truthy honeypot is answered `{success: true}` and nothing reaches the store. */
  lemma HoneypotIsDiscarded(limit: RateLimitResult, b: Body, urlParses: string -> bool, storeAnswer: Option<string>)
    requires !limit.limited && Truthy(b.honeypot)
    ensures Respond(limit, Some(b), urlParses, storeAnswer) == Response(200, Success, None)
    ensures Inserted(limit, Some(b), urlParses) == None
  {
  }

  /** A refused rate-limit check answers 429 whatever the body, with `Retry-After` the hint in seconds. */
  lemma RateLimitedComesFirst(limit: RateLimitResult, body: Option<Body>, urlParses: string -> bool,
                              storeAnswer: Option<string>)
    requires limit.limited
    ensures var r := Respond(limit, body, urlParses, storeAnswer);
      && r.status == 429
      && r.reply.RateLimited? && r.reply.retryAfter == limit.remainingTime
      && r.retryAfter == Some(ShowInt(limit.remainingTime * 60))
    ensures Inserted(limit, body, urlParses) == None
  {
  }

  /** A missing field is reported by name, and it is the first missing one of title, url, description, category, tags. */
  lemma MissingFieldReported(limit: RateLimitResult, b: Body, urlParses: string -> bool, storeAnswer: Option<string>)
    requires !limit.limited && !Truthy(b.honeypot)
    requires !AllPresent(b)
    ensures var r := Respond(limit, Some(b), urlParses, storeAnswer);
      exists k :: (0 <= k < |RequiredFields| && r == Response(400, Error(MissingFieldError(RequiredFields[k])), None)
        && !FieldPresent(b, RequiredFields[k]) && forall i :: 0 <= i < k ==> FieldPresent(b, RequiredFields[i]))
    ensures Inserted(limit, Some(b), urlParses) == None
  {
    var missing := FirstMissing(b, RequiredFields);
    AllPresentIsNoneMissing(b);
    var k :| 0 <= k < |RequiredFields| && RequiredFields[k] == missing.value
      && !FieldPresent(b, RequiredFields[k]) && forall i :: 0 <= i < k ==> FieldPresent(b, RequiredFields[i]);
    assert Respond(limit, Some(b), urlParses, storeAnswer) == Response(400, Error(MissingFieldError(RequiredFields[k])), None);
  }

  /** Presence is truthiness: an empty tag list passes the check, an empty tag string does not. */
  lemma PresenceIsTruthiness(b: Body)
    ensures b.tags == StrList([]) ==> FieldPresent(b, "tags")
    ensures b.tags == Str("") ==> !FieldPresent(b, "tags")
    ensures b.title == Some("") ==> !FieldPresent(b, "title")
  {
  }

  /** With every field present and a parsable URL, a description of 300 characters is accepted and 301 is rejected. */
  lemma DescriptionLengthBoundary(b: Body, urlParses: string -> bool)
    requires !Truthy(b.honeypot) && AllPresent(b)
    requires urlParses(b.url.value)
    ensures |b.description.value| <= MaxDescription ==> Validate(b, urlParses).Accept?
    ensures |b.description.value| > MaxDescription ==> Validate(b, urlParses) == Reject(DescriptionTooLong)
  {
    AllPresentIsNoneMissing(b);
  }

  /** A URL that does not parse is rejected with the URL error once every field is present. */
  lemma InvalidUrlRejected(limit: RateLimitResult, b: Body, urlParses: string -> bool, storeAnswer: Option<string>)
    requires !limit.limited && !Truthy(b.honeypot) && AllPresent(b)
    requires !urlParses(b.url.value)
    ensures Respond(limit, Some(b), urlParses, storeAnswer) == Response(400, Error(InvalidUrl), None)
  {
    AllPresentIsNoneMissing(b);
  }

  /** A body that cannot be read, or a store that fails, gives 500 with the generic message and no detail. */
  lemma FailuresAreGeneric(limit: RateLimitResult, body: Option<Body>, urlParses: string -> bool)
    requires !limit.limited
    requires body.None? || Validate(body.value, urlParses).Accept?
    ensures Respond(limit, body, urlParses, None) == Response(500, Error(SubmitFailed), None)
  {
  }

  // ---------------------------------------------------------------------------
  // The module's state and the handlers that change it

  /** The module-level `ipSubmissions` map and the code that reads and writes it. */
  class SubmitEndpoint {
    var ipSubmissions: map<string, Record>

    constructor ()
      ensures ipSubmissions == map[]
    {
      ipSubmissions := map[];
    }

    /** `isRateLimited(ip)` at time `now`. */
    method IsRateLimited(ip: string, now: int) returns (result: RateLimitResult)
      modifies this
      ensures CheckOutcome(result, ipSubmissions) == Check(old(ipSubmissions), ip, now)
    {
      if ip !in ipSubmissions || now - ipSubmissions[ip].timestamp > RateWindow {
        ipSubmissions := ipSubmissions[ip := Record(1, now)];
        return RateLimitResult(false, 0);
      }
      var record := ipSubmissions[ip];
      if record.count < RateLimit {
        ipSubmissions := ipSubmissions[ip := record.(count := record.count + 1)];
        return RateLimitResult(false, 0);
      }
      var remainingTime := RemainingMinutes(record, now);
      result := RateLimitResult(true, remainingTime);
    }

    /** The body of the periodic sweep: deletes every expired entry, one key at a time. */
    method SweepExpired(now: int)
      modifies this
      ensures ipSubmissions == Unexpired(old(ipSubmissions), now)
    {
      var pending := ipSubmissions.Keys;
      ghost var original := ipSubmissions;
      while pending != {}
        invariant pending <= original.Keys
        invariant forall ip :: ip in ipSubmissions <==> ip in original && (ip in pending || !Expired(original[ip], now))
        invariant forall ip :: ip in ipSubmissions ==> ipSubmissions[ip] == original[ip]
        decreases pending
      {
        var ip :| ip in pending;
        if now - ipSubmissions[ip].timestamp > RateWindow {
          ipSubmissions := ipSubmissions - {ip};
        }
        pending := pending - {ip};
      }
    }

    /**
     * POST: check the rate limit for the client's key (a check that always
     * counts, so honeypot and invalid requests use up quota), then run the
     * validation chain and, if it accepts, hand the row to the store.
     */
    method Post(headers: Headers, now: int, body: Option<Body>, urlParses: string -> bool,
                storeAnswer: Option<string>)
      returns (resp: Response, inserted: Option<Supabase.SubmissionRow>)
      modifies this
      ensures var out := Check(old(ipSubmissions), ClientKey(headers), now);
        && ipSubmissions == out.submissions
        && resp == Respond(out.result, body, urlParses, storeAnswer)
        && inserted == Inserted(out.result, body, urlParses)
    {
      var ip := ClientKey(headers);
      var rateLimitCheck := IsRateLimited(ip, now);
      inserted := None;
      if rateLimitCheck.limited {
        return RateLimitResponse(rateLimitCheck.remainingTime), None;
      }
      if body.None? {
        return ServerError, None;
      }
      var verdict := CheckBody(body.value, urlParses);
      match verdict
      case Discard =>
        return Response(200, Success, None), None;
      case Reject(e) =>
        return Response(400, Error(e), None), None;
      case Accept(submission) =>
        inserted := Some(Supabase.InsertedRow(submission));
        var id := Supabase.SubmitNewsletter(submission, storeAnswer);
        if id.Err? {
          return ServerError, inserted;
        }
        resp := Response(200, Created(id.value, CreatedMessage), None);
    }

  }

  /**
   * The checks POST runs on a parsed body, in the source's order: the
   * honeypot, each required field in turn, the URL, the description length.
   */
  method CheckBody(b: Body, urlParses: string -> bool) returns (verdict: Verdict)
    ensures verdict == Validate(b, urlParses)
  {
    if Truthy(b.honeypot) {
      return Discard;
    }
    var i := 0;
    while i < |RequiredFields|
      invariant 0 <= i <= |RequiredFields|
      invariant FirstMissing(b, RequiredFields) == FirstMissing(b, RequiredFields[i..])
    {
      if !FieldPresent(b, RequiredFields[i]) {
        return Reject(MissingFieldError(RequiredFields[i]));
      }
      assert RequiredFields[i..][1..] == RequiredFields[i + 1..];
      i := i + 1;
    }
    AllPresentIsNoneMissing(b);
    if !urlParses(b.url.value) {
      return Reject(InvalidUrl);
    }
    if |b.description.value| > MaxDescription {
      return Reject(DescriptionTooLong);
    }
    verdict := Accept(Supabase.Submission(b.title.value, b.url.value, b.description.value, b.category.value,
                                          b.tags, b.email));
  }

  /**
   * Eleven submissions from one address inside one window, starting with no
   * record: the first ten pass and the eleventh is refused with a hint of at
   * most an hour.
   */
  method EleventhSubmissionIsLimited(ip: string, times: seq<int>) returns (results: seq<RateLimitResult>)
    requires |times| == RateLimit + 1
    requires forall i :: 0 <= i < |times| ==> times[0] <= times[i] <= times[0] + RateWindow
    ensures |results| == |times|
    ensures forall i :: 0 <= i < RateLimit ==> !results[i].limited
    ensures results[RateLimit].limited && 0 <= results[RateLimit].remainingTime <= 60
  {
    var endpoint := new SubmitEndpoint();
    results := [];
    var i := 0;
    while i < |times|
      invariant 0 <= i <= |times| && |results| == i
      invariant forall j :: 0 <= j < i && j < RateLimit ==> !results[j].limited
      invariant i == RateLimit + 1 ==> results[RateLimit].limited && 0 <= results[RateLimit].remainingTime <= 60
      invariant i == 0 ==> ip !in endpoint.ipSubmissions
      invariant 0 < i ==>
        (ip in endpoint.ipSubmissions
         && endpoint.ipSubmissions[ip] == Record(if i <= RateLimit then i else RateLimit, times[0]))
    {
      var r := endpoint.IsRateLimited(ip, times[i]);
      results := results + [r];
      i := i + 1;
    }
  }
}
