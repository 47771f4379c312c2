/**
 * Authorization of the ingestion endpoint: the Authorization header must be
 * "Bearer " followed by exactly 32 characters, and a stored token must grant
 * that token to the username of the request. The repository is not checked:
 * a token is valid for every repository of its user.
 */
module Auth {
  import opened Tables

  const AuthPrefix := "Bearer "

  /** The length of a token. */
  const TokenLength := 32

  /** The outcome of the check: success, a malformed header (401) or an unknown token (403). */
  datatype AuthResult = Authorized | UnauthorizedHeader | TokenUnauthorized {
    function Status(): (s: Status)
      ensures Authorized? <==> s == Ok
      ensures UnauthorizedHeader? ==> s == Unauthorized
      ensures TokenUnauthorized? ==> s == Forbidden
    {
      match this
      case Authorized => Ok
      case UnauthorizedHeader => Unauthorized
      case TokenUnauthorized => Forbidden
    }
  }

  /** The header value as read by the server: a missing header reads as the empty string. */
  function HeaderValue(header: Option<string>): (auth: string)
    ensures header.Some? ==> auth == header.value
    ensures header.None? ==> auth == ""
  {
    match header
    case Some(h) => h
    case None => ""
  }

  /** What follows the first |AuthPrefix| characters, or "" for a shorter value (slicing past the end). */
  function TokenPart(auth: string): (token: string)
    ensures |auth| >= |AuthPrefix| ==> auth == auth[..|AuthPrefix|] + token
    ensures |auth| <= |AuthPrefix| ==> token == ""
  {
    if |auth| <= |AuthPrefix| then "" else auth[|AuthPrefix|..]
  }

  /** The format check of the header: the prefix, then a token of exactly TokenLength characters. */
  predicate IsWellFormed(auth: string)
    ensures IsWellFormed(auth) <==> |auth| == |AuthPrefix| + TokenLength && auth[..|AuthPrefix|] == AuthPrefix
  {
    |auth| >= |AuthPrefix| && auth[..|AuthPrefix|] == AuthPrefix && |TokenPart(auth)| == TokenLength
  }

  /** Whether some stored token grants `token` to `user`; `repo` takes no part. */
  function TokenCanAccess(tokens: seq<AccessToken>, token: string, user: string, repo: string): (r: AuthResult)
    ensures r != UnauthorizedHeader
    ensures r == Authorized <==> exists i :: 0 <= i < |tokens| && Grants(tokens[i], user, token)
  {
    if FindToken(tokens, user, token).Some? then Authorized else TokenUnauthorized
  }

  /** The authorization check of a request for user/repo with the given Authorization header. */
  function CheckAuthorization(tokens: seq<AccessToken>, header: Option<string>, user: string, repo: string)
    : (r: AuthResult)
    ensures r == UnauthorizedHeader <==>
      var auth := HeaderValue(header);
      |auth| != |AuthPrefix| + TokenLength || auth[..|AuthPrefix|] != AuthPrefix
    ensures r == Authorized <==>
      var auth := HeaderValue(header);
      && IsWellFormed(auth)
      && exists i :: 0 <= i < |tokens| && Grants(tokens[i], user, auth[|AuthPrefix|..])
  {
    var auth := HeaderValue(header);
    if !IsWellFormed(auth) then UnauthorizedHeader
    else TokenCanAccess(tokens, TokenPart(auth), user, repo)
  }

  /** A malformed header is refused whatever the stored tokens: no lookup decides it. */
  lemma MalformedNeedsNoLookup(tokens: seq<AccessToken>, tokens': seq<AccessToken>, header: Option<string>,
                               user: string, repo: string)
    requires !IsWellFormed(HeaderValue(header))
    ensures CheckAuthorization(tokens, header, user, repo) == UnauthorizedHeader
    ensures CheckAuthorization(tokens', header, user, repo) == UnauthorizedHeader
  {
  }

  /** A missing header is refused with 401. */
  lemma MissingHeaderIsUnauthorized(tokens: seq<AccessToken>, user: string, repo: string)
    ensures CheckAuthorization(tokens, None, user, repo).Status() == Unauthorized
  {
  }

  /** The repository never changes the outcome. */
  lemma RepoNeverMatters(tokens: seq<AccessToken>, header: Option<string>, user: string, repo: string, repo': string)
    ensures CheckAuthorization(tokens, header, user, repo) == CheckAuthorization(tokens, header, user, repo')
  {
  }

  /** A stored token presented as a bearer token authorizes its user for any repository. */
  lemma StoredTokenAuthorizes(tokens: seq<AccessToken>, k: nat, repo: string)
    requires k < |tokens| && |tokens[k].token| == TokenLength
    ensures CheckAuthorization(tokens, Some(AuthPrefix + tokens[k].token), tokens[k].username, repo) == Authorized
  {
    var auth := AuthPrefix + tokens[k].token;
    assert auth[..|AuthPrefix|] == AuthPrefix;
    assert TokenPart(auth) == tokens[k].token;
    assert Grants(tokens[k], tokens[k].username, TokenPart(auth));
  }
}
