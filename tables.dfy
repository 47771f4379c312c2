/**
 * The two tables of the coverage-badge service (coverage reports and access
 * tokens) as values, and the two queries the request handlers run on them:
 * the "latest report" lookup of the badge endpoint and the token lookup of
 * the authorization check.
 */
module Tables {

  datatype Option<+T> = None | Some(value: T)

  /** A stored coverage report. `createdAt` is the value of the clock at insert time. */
  datatype CoverageInfo = CoverageInfo(
    id: nat,
    username: string,
    reponame: string,
    branch: string,
    buildId: int,
    coverage: real,
    createdAt: int)

  /** A stored access token; it is valid for every repository of `username`. */
  datatype AccessToken = AccessToken(
    id: nat,
    token: string,
    name: string,
    username: string,
    createdAt: int)

  /** The outcome kinds of the two HTTP endpoints. */
  datatype Status = Ok | Created | BadRequest | Unauthorized | Forbidden {
    function Code(): (code: nat)
      ensures 200 <= code < 500
      ensures code < 400 <==> this == Ok || this == Created
      ensures this == Ok <==> code == 200
      ensures this == Created <==> code == 201
      ensures this == BadRequest <==> code == 400
      ensures this == Unauthorized <==> code == 401
      ensures this == Forbidden <==> code == 403
    {
      match this
      case Ok => 200
      case Created => 201
      case BadRequest => 400
      case Unauthorized => 401
      case Forbidden => 403
    }
  }

  /** The filter of the badge query: the report belongs to user/repo/branch. */
  predicate Matches(c: CoverageInfo, user: string, repo: string, branch: string)
    ensures Matches(c, user, repo, branch) <==> (c.username, c.reponame, c.branch) == (user, repo, branch)
  {
    c.username == user && c.reponame == repo && c.branch == branch
  }

  /**
   * The badge query: among the reports of user/repo/branch, one with the
   * greatest creation time, or None when there is none. Which of several
   * reports with the same creation time is returned is not promised.
   */
  function Latest(records: seq<CoverageInfo>, user: string, repo: string, branch: string)
    : (r: Option<CoverageInfo>)
    ensures r.None? <==> forall i :: 0 <= i < |records| ==> !Matches(records[i], user, repo, branch)
    ensures r.Some? ==> r.value in records && Matches(r.value, user, repo, branch)
    ensures r.Some? ==>
      forall i :: 0 <= i < |records| && Matches(records[i], user, repo, branch) ==>
        records[i].createdAt <= r.value.createdAt
  {
    if records == [] then None
    else
      var last := records[|records| - 1];
      var rest := Latest(records[..|records| - 1], user, repo, branch);
      if !Matches(last, user, repo, branch) then rest
      else if rest.Some? && rest.value.createdAt > last.createdAt then rest
      else Some(last)
  }

  /** Appending a report of another user/repo/branch does not change the latest one. */
  lemma LatestIgnoresOthers(records: seq<CoverageInfo>, c: CoverageInfo, user: string, repo: string, branch: string)
    requires !Matches(c, user, repo, branch)
    ensures Latest(records + [c], user, repo, branch) == Latest(records, user, repo, branch)
  {
    assert (records + [c])[..|records|] == records;
  }

  /** Appending a report strictly newer than every matching one makes it the latest. */
  lemma LatestAfterNewer(records: seq<CoverageInfo>, c: CoverageInfo)
    requires forall i :: 0 <= i < |records| && Matches(records[i], c.username, c.reponame, c.branch) ==>
      records[i].createdAt < c.createdAt
    ensures Latest(records + [c], c.username, c.reponame, c.branch) == Some(c)
  {
    assert (records + [c])[..|records|] == records;
  }

  /** The token query: a stored token with that username and that token value. */
  predicate Grants(t: AccessToken, user: string, token: string)
    ensures Grants(t, user, token) <==> (t.username, t.token) == (user, token)
  {
    t.username == user && t.token == token
  }

  /** The first stored token that grants `token` to `user`, if any. */
  function FindToken(tokens: seq<AccessToken>, user: string, token: string): (r: Option<AccessToken>)
    ensures r.Some? <==> exists i :: 0 <= i < |tokens| && Grants(tokens[i], user, token)
    ensures r.Some? ==> r.value in tokens && Grants(r.value, user, token)
  {
    if tokens == [] then None
    else if Grants(tokens[0], user, token) then Some(tokens[0])
    else
      var rest := FindToken(tokens[1..], user, token);
      assert forall i :: 1 <= i < |tokens| ==> tokens[i] == tokens[1..][i - 1];
      rest
  }
}
