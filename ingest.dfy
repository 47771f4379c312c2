/**
 * The ingestion endpoint's decision: the request is authorized first, then
 * the JSON payload is converted (coverage_total by float(), build_number by
 * int()), and only a request that passes both yields a report to store.
 */
module Ingest {
  import opened Tables
  import Auth

  /** A decoded JSON value. */
  datatype Json =
    | Null
    | Bool(b: bool)
    | Number(n: real)
    | Str(s: string)
    | Array(items: seq<Json>)
    | Object(fields: map<string, Json>)

  /** The decoded request body: a JSON object. */
  type Payload = map<string, Json>

  /**
   * The string conversions of float() and int(): None where they raise.
   * Their grammar is not part of the model.
   */
  datatype Parsers = Parsers(floatOf: string -> Option<real>, intOf: string -> Option<int>)

  /** A field of the payload; an absent field reads as null. */
  function Get(payload: Payload, key: string): (v: Json)
    ensures key in payload ==> v == payload[key]
    ensures key !in payload ==> v == Null
  {
    if key in payload then payload[key] else Null
  }

  /** The integer part of x, rounding toward zero as int() does for a float. */
  function TruncateTowardZero(x: real): (n: int)
    ensures 0.0 <= x ==> 0 <= n && n as real <= x < n as real + 1.0
    ensures x < 0.0 ==> n <= 0 && n as real - 1.0 < x <= n as real
  {
    if x >= 0.0 then x.Floor else -((-x).Floor)
  }

  /** float() of a JSON value: null, arrays and objects raise; booleans are 0 and 1. */
  function ToFloat(v: Json, parsers: Parsers): (r: Option<real>)
    ensures v.Null? || v.Array? || v.Object? ==> r.None?
    ensures v.Bool? ==> r == Some(if v.b then 1.0 else 0.0)
    ensures v.Number? ==> r == Some(v.n)
    ensures v.Str? ==> r == parsers.floatOf(v.s)
  {
    match v
    case Bool(b) => Some(if b then 1.0 else 0.0)
    case Number(n) => Some(n)
    case Str(s) => parsers.floatOf(s)
    case _ => None
  }

  /** int() of a JSON value: null, arrays and objects raise; numbers are truncated toward zero. */
  function ToInt(v: Json, parsers: Parsers): (r: Option<int>)
    ensures v.Null? || v.Array? || v.Object? ==> r.None?
    ensures v.Bool? ==> r == Some(if v.b then 1 else 0)
    ensures v.Number? ==> r.Some? && r.value == TruncateTowardZero(v.n)
    ensures v.Str? ==> r == parsers.intOf(v.s)
  {
    match v
    case Bool(b) => Some(if b then 1 else 0)
    case Number(n) => Some(TruncateTowardZero(n))
    case Str(s) => parsers.intOf(s)
    case _ => None
  }

  /** Except on strings, int() of a value is float() of it truncated toward zero, and fails exactly when float() fails. */
  lemma IntIsTruncatedFloat(v: Json, parsers: Parsers)
    requires !v.Str?
    ensures ToInt(v, parsers).Some? <==> ToFloat(v, parsers).Some?
    ensures ToInt(v, parsers).Some? ==>
      ToInt(v, parsers).value == TruncateTowardZero(ToFloat(v, parsers).value)
  {
    if v.Bool? {
      assert TruncateTowardZero(1.0) == 1 && TruncateTowardZero(0.0) == 0;
    }
  }

  /** A validated report, before the store gives it an id and a creation time. */
  datatype Report = Report(username: string, reponame: string, branch: string, buildId: int, coverage: real)

  /** The payload converted into a report for user/repo/branch; None stands for the conversion error (400). */
  function ValidateCoverageReport(user: string, repo: string, branch: string, payload: Payload, parsers: Parsers)
    : (r: Option<Report>)
    ensures "coverage_total" !in payload || "build_number" !in payload ==> r.None?
    ensures r.Some? <==>
      ToFloat(Get(payload, "coverage_total"), parsers).Some? && ToInt(Get(payload, "build_number"), parsers).Some?
    ensures r.Some? ==>
      && r.value.username == user && r.value.reponame == repo && r.value.branch == branch
      && r.value.coverage == ToFloat(Get(payload, "coverage_total"), parsers).value
      && r.value.buildId == ToInt(Get(payload, "build_number"), parsers).value
  {
    var total := ToFloat(Get(payload, "coverage_total"), parsers);
    var build := ToInt(Get(payload, "build_number"), parsers);
    if total.None? || build.None? then None
    else Some(Report(user, repo, branch, build.value, total.value))
  }

  /** What the ingestion endpoint does with a request: refuse it with a status, or store a report. */
  datatype Decision = Rejected(status: Status) | Accepted(report: Report)

  /** The ingestion endpoint's decision for a POST to user/repo/branch. */
  function Decide(tokens: seq<AccessToken>, header: Option<string>, user: string, repo: string, branch: string,
                  payload: Payload, parsers: Parsers): (d: Decision)
    ensures d.Rejected? ==> d.status in {BadRequest, Unauthorized, Forbidden}
    ensures d == Rejected(Unauthorized) <==> !Auth.IsWellFormed(Auth.HeaderValue(header))
    ensures d == Rejected(Forbidden) <==>
      Auth.CheckAuthorization(tokens, header, user, repo) == Auth.TokenUnauthorized
    ensures d == Rejected(BadRequest) <==>
      && Auth.CheckAuthorization(tokens, header, user, repo) == Auth.Authorized
      && ValidateCoverageReport(user, repo, branch, payload, parsers).None?
    ensures d.Accepted? ==>
      && Auth.CheckAuthorization(tokens, header, user, repo) == Auth.Authorized
      && ValidateCoverageReport(user, repo, branch, payload, parsers) == Some(d.report)
  {
    match Auth.CheckAuthorization(tokens, header, user, repo)
    case Authorized =>
      (match ValidateCoverageReport(user, repo, branch, payload, parsers)
       case None => Rejected(BadRequest)
       case Some(report) => Accepted(report))
    case failure => Rejected(failure.Status())
  }

  /** Authorization comes first: a refused request gets 401 or 403 whatever its payload. */
  lemma AuthorizationFirst(tokens: seq<AccessToken>, header: Option<string>, user: string, repo: string,
                           branch: string, payload: Payload, payload': Payload, parsers: Parsers)
    requires Auth.CheckAuthorization(tokens, header, user, repo) != Auth.Authorized
    ensures Decide(tokens, header, user, repo, branch, payload, parsers).Rejected?
    ensures Decide(tokens, header, user, repo, branch, payload, parsers)
         == Decide(tokens, header, user, repo, branch, payload', parsers)
    ensures Decide(tokens, header, user, repo, branch, payload, parsers).status != BadRequest
  {
  }

  /** A token of the user authorizes every repository: only the stored report depends on the repository. */
  lemma AnyRepositoryOfTheUser(tokens: seq<AccessToken>, header: Option<string>, user: string, repo: string,
                               repo': string, branch: string, payload: Payload, parsers: Parsers)
    ensures Decide(tokens, header, user, repo, branch, payload, parsers).Accepted?
        <==> Decide(tokens, header, user, repo', branch, payload, parsers).Accepted?
  {
    Auth.RepoNeverMatters(tokens, header, user, repo, repo');
  }
}
