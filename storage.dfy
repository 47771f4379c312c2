/**
 * The database of the service as an object: two append-only tables that the
 * ingestion endpoint and the token command extend in place, and what the
 * badge endpoint and the authorization check then read from them.
 */
module Storage {
  import opened Tables
  import Auth
  import Badge
  import Ingest
  import Tokens

  /** A validated report as stored: with its id and the clock value at insert. */
  function Stamp(report: Ingest.Report, id: nat, now: int): (c: CoverageInfo)
    ensures Matches(c, report.username, report.reponame, report.branch)
    ensures c.coverage == report.coverage && c.buildId == report.buildId
    ensures c.id == id && c.createdAt == now
  {
    CoverageInfo(id, report.username, report.reponame, report.branch, report.buildId, report.coverage, now)
  }

  /** What the token command reports: a bad owner argument, a token that is already stored, or the new token. */
  datatype IssueOutcome =
    | BadArgument
    | DuplicateToken(warned: bool)
    | Issued(token: string, username: string, warned: bool)

  class Store {
    var coverage: seq<CoverageInfo>
    var tokens: seq<AccessToken>

    /**
     * Rows are numbered 1, 2, ... in insertion order; token values are
     * unique (the column is declared unique) and are generated tokens.
     */
    ghost predicate Valid()
      reads this
    {
      && (forall i :: 0 <= i < |coverage| ==> coverage[i].id == i + 1)
      && (forall i :: 0 <= i < |tokens| ==> tokens[i].id == i + 1 && Tokens.IsToken(tokens[i].token))
      && (forall i, j :: 0 <= i < j < |tokens| ==> tokens[i].token != tokens[j].token)
    }

    /** A freshly created database: both tables empty. */
    constructor ()
      ensures Valid() && coverage == [] && tokens == []
    {
      coverage := [];
      tokens := [];
    }

    /**
     * The ingestion endpoint: authorize, then validate the payload, then
     * append exactly one report stamped with `now`. A refused request
     * changes nothing.
     */
    method UpdateCoverage(header: Option<string>, user: string, repo: string, branch: string,
                          payload: Ingest.Payload, parsers: Ingest.Parsers, now: int)
      returns (status: Status)
      requires Valid()
      modifies this
      ensures Valid()
      ensures tokens == old(tokens)
      ensures var d := Ingest.Decide(old(tokens), header, user, repo, branch, payload, parsers);
        && (d.Rejected? ==> status == d.status && coverage == old(coverage))
        && (d.Accepted? ==>
              status == Created && coverage == old(coverage) + [Stamp(d.report, |old(coverage)| + 1, now)])
    {
      var auth := Auth.CheckAuthorization(tokens, header, user, repo);
      if auth != Auth.Authorized {
        return auth.Status();
      }
      var report := Ingest.ValidateCoverageReport(user, repo, branch, payload, parsers);
      if report.None? {
        return BadRequest;
      }
      coverage := coverage + [Stamp(report.value, |coverage| + 1, now)];
      return Created;
    }

    /**
     * The token command: parse the owner argument, generate a token from
     * `picks` and append it for that user under `name`. A generated value
     * that is already stored violates the unique column and nothing is added.
     */
    method IssueToken(arg: string, name: string, picks: seq<nat>, now: int) returns (outcome: IssueOutcome)
      requires Valid() && Tokens.IsChoice(picks)
      modifies this
      ensures Valid()
      ensures coverage == old(coverage)
      ensures var parsed := Tokens.ParseUserRepo(arg);
        var token := Tokens.GenerateToken(picks);
        && (parsed.None? ==> outcome == BadArgument && tokens == old(tokens))
        && (parsed.Some? && (exists i :: 0 <= i < |old(tokens)| && old(tokens)[i].token == token) ==>
              outcome == DuplicateToken(Tokens.WarnsRepoIgnored(parsed.value.1)) && tokens == old(tokens))
        && (parsed.Some? && (forall i :: 0 <= i < |old(tokens)| ==> old(tokens)[i].token != token) ==>
              && outcome == Issued(token, parsed.value.0, Tokens.WarnsRepoIgnored(parsed.value.1))
              && tokens == old(tokens) + [AccessToken(|old(tokens)| + 1, token, name, parsed.value.0, now)])
    {
      var parsed := Tokens.ParseUserRepo(arg);
      if parsed.None? {
        return BadArgument;
      }
      var (user, repo) := parsed.value;
      var warned := Tokens.WarnsRepoIgnored(repo);
      var token := Tokens.GenerateToken(picks);
      if exists i :: 0 <= i < |tokens| && tokens[i].token == token {
        return DuplicateToken(warned);
      }
      tokens := tokens + [AccessToken(|tokens| + 1, token, name, user, now)];
      return Issued(token, user, warned);
    }
  }

  /**
   * In a valid store every token row, presented as a bearer token, authorizes
   * its user, and the token lookup finds exactly that row: token values are
   * unique, so no other row can answer the lookup.
   */
  lemma StoredRowAuthorizes(store: Store, k: nat, repo: string)
    requires store.Valid() && k < |store.tokens|
    ensures FindToken(store.tokens, store.tokens[k].username, store.tokens[k].token) == Some(store.tokens[k])
    ensures Auth.CheckAuthorization(store.tokens, Some(Auth.AuthPrefix + store.tokens[k].token),
                                    store.tokens[k].username, repo) == Auth.Authorized
  {
    var row := store.tokens[k];
    var found := FindToken(store.tokens, row.username, row.token);
    assert Grants(store.tokens[k], row.username, row.token);
    var j :| 0 <= j < |store.tokens| && store.tokens[j] == found.value;
    assert store.tokens[j].token == store.tokens[k].token;
    Auth.StoredTokenAuthorizes(store.tokens, k, repo);
  }

  /**
   * Ingest then render: once a report newer than every stored report of its
   * user/repo/branch is appended, the badge with default thresholds shows
   * that report's coverage and colour.
   */
  lemma IngestThenRender(records: seq<CoverageInfo>, report: Ingest.Report, id: nat, now: int,
                         floatOf: string -> Option<real>)
    requires forall i :: 0 <= i < |records| && Matches(records[i], report.username, report.reponame, report.branch) ==>
      records[i].createdAt < now
    ensures Badge.GetCoverageSvg(map[], records + [Stamp(report, id, now)],
                                 report.username, report.reponame, report.branch, floatOf)
         == Badge.Svg(Badge.Badge(60, 54, 4, Badge.FormatCoverage(report.coverage),
                                  Badge.Colormap[Badge.RenderColor(report.coverage, 80.0, 5.0)]))
  {
    LatestAfterNewer(records, Stamp(report, id, now));
  }

  /** With no report for user/repo/branch the badge is N/A and red, whatever the thresholds. */
  lemma NoDataIsRed(records: seq<CoverageInfo>, args: map<string, string>, user: string, repo: string,
                    branch: string, floatOf: string -> Option<real>)
    requires forall i :: 0 <= i < |records| ==> !Matches(records[i], user, repo, branch)
    requires Badge.GetCoverageSvg(args, records, user, repo, branch, floatOf).Svg?
    ensures Badge.GetCoverageSvg(args, records, user, repo, branch, floatOf).badge.coverage == [Badge.Chars("N/A")]
    ensures Badge.GetCoverageSvg(args, records, user, repo, branch, floatOf).badge.color == "#e05d44"
  {
  }

  /** A token issued for a user authorizes posts to any repository of that user. */
  lemma IssuedTokenAuthorizes(tokens: seq<AccessToken>, token: AccessToken, repo: string)
    requires Tokens.IsToken(token.token)
    ensures Auth.CheckAuthorization(tokens + [token], Some(Auth.AuthPrefix + token.token), token.username, repo)
         == Auth.Authorized
  {
    Auth.StoredTokenAuthorizes(tokens + [token], |tokens|, repo);
  }

  /** A well-formed bearer token that no stored token grants to the user is refused with 403. */
  lemma UnknownTokenIsForbidden(tokens: seq<AccessToken>, token: string, user: string, repo: string)
    requires |token| == Auth.TokenLength
    requires forall i :: 0 <= i < |tokens| ==> !Grants(tokens[i], user, token)
    ensures Auth.CheckAuthorization(tokens, Some(Auth.AuthPrefix + token), user, repo).Status() == Forbidden
  {
    var auth := Auth.AuthPrefix + token;
    assert auth[..|Auth.AuthPrefix|] == Auth.AuthPrefix;
    assert auth[|Auth.AuthPrefix|..] == token;
  }

  /** The payload of the example session: 87.3% for build 42. */
  function ExamplePayload(): Ingest.Payload {
    map["coverage_total" := Ingest.Number(87.3), "build_number" := Ingest.Number(42.0)]
  }

  /** The example payload validates to 87.3% for build 42, whatever the string conversions. */
  lemma ExampleReport(user: string, repo: string, branch: string, parsers: Ingest.Parsers)
    ensures Ingest.ValidateCoverageReport(user, repo, branch, ExamplePayload(), parsers)
         == Some(Ingest.Report(user, repo, branch, 42, 87.3))
  {
    assert Ingest.Get(ExamplePayload(), "coverage_total") == Ingest.Number(87.3);
    assert Ingest.Get(ExamplePayload(), "build_number") == Ingest.Number(42.0);
    assert Ingest.TruncateTowardZero(42.0) == 42;
  }

  /** The badge of a store holding only the example report: "87.3", the suffix, green. */
  lemma ExampleBadge(user: string, repo: string, branch: string, postedAt: int, floatOf: string -> Option<real>)
    ensures Badge.GetCoverageSvg(map[], [Stamp(Ingest.Report(user, repo, branch, 42, 87.3), 1, postedAt)],
                                 user, repo, branch, floatOf)
         == Badge.Svg(Badge.Badge(60, 54, 4, [Badge.Fixed(87.3, 1), Badge.Chars(Badge.PercentSuffix)], "#97ca00"))
  {
    var report := Ingest.Report(user, repo, branch, 42, 87.3);
    IngestThenRender([], report, 1, postedAt, floatOf);
    assert [] + [Stamp(report, 1, postedAt)] == [Stamp(report, 1, postedAt)];
    assert Badge.FormatCoverage(87.3) == [Badge.Fixed(87.3, 1), Badge.Chars(Badge.PercentSuffix)];
    assert Badge.RenderColor(87.3, 80.0, 5.0) == "green";
  }

  /**
   * A whole session against a fresh database: issue a token for `user`,
   * post 87.3% for build 42 with it to a repository the token was not
   * issued for, and render the badge with default thresholds.
   */
  method Session(user: string, repo: string, branch: string, picks: seq<nat>, parsers: Ingest.Parsers,
                 issuedAt: int, postedAt: int)
    returns (posted: Status, badge: Badge.BadgeResponse)
    requires Tokens.IsChoice(picks) && Tokens.Slash !in user
    ensures posted == Created
    ensures badge == Badge.Svg(Badge.Badge(60, 54, 4, [Badge.Fixed(87.3, 1), Badge.Chars(Badge.PercentSuffix)],
                                           "#97ca00"))
  {
    var store := new Store();
    var outcome := store.IssueToken(user, "ci", picks, issuedAt);
    var token := Tokens.GenerateToken(picks);
    var issued := AccessToken(1, token, "ci", user, issuedAt);
    assert store.tokens == [] + [issued] by {
      assert Tokens.ParseUserRepo(user) == Some((user, "*"));
    }
    var header := Some(Auth.AuthPrefix + token);
    var report := Ingest.Report(user, repo, branch, 42, 87.3);
    assert Ingest.Decide(store.tokens, header, user, repo, branch, ExamplePayload(), parsers)
        == Ingest.Accepted(report) by {
      IssuedTokenAuthorizes([], issued, repo);
      ExampleReport(user, repo, branch, parsers);
    }
    posted := store.UpdateCoverage(header, user, repo, branch, ExamplePayload(), parsers, postedAt);
    assert store.coverage == [Stamp(report, 1, postedAt)];
    badge := Badge.GetCoverageSvg(map[], store.coverage, user, repo, branch, parsers.floatOf);
    ExampleBadge(user, repo, branch, postedAt, parsers.floatOf);
  }
}
