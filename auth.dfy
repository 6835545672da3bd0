/**
 * The tracker API's authentication: a token is taken from the
 * `Authorization: Bearer …` header or, failing that, from the `token` query
 * parameter, and the request passes only when the token is one of the
 * configured access tokens.
 *
 * The middleware's response bodies and the forwarding of the request are not
 * modelled; the outcome is the accepted token or the error.
 */
module ApiAuth {
  import opened Wrappers
  import opened Strings

  const AUTH_BEARER_TOKEN_HEADER_PREFIX: string := "Bearer"

  datatype AuthError = Unauthorized | TokenNotValid | UnknownTokenProvided

  /** The configured access tokens, by label. */
  type AccessTokens = map<string, string>

  /** A character `HeaderValue::to_str` accepts: visible ASCII or a tab. */
  predicate VisibleAscii(c: char)
  {
    (' ' <= c <= '~') || c == '\t'
  }

  /** `to_str`: the header text when every character is visible ASCII. */
  function HeaderText(raw: string): (r: Option<string>)
    ensures r.Some? <==> forall i :: 0 <= i < |raw| ==> VisibleAscii(raw[i])
    ensures r.Some? ==> r.value == raw
  {
    if forall i :: 0 <= i < |raw| ==> VisibleAscii(raw[i]) then Some(raw) else None
  }

  /**
   * `extract_bearer_token_from_header`: no (readable) header gives no token;
   * exactly "Bearer" gives the empty token; "Bearer " followed by anything
   * gives what follows; any other value is `UnknownTokenProvided`.
   */
  function ExtractBearerTokenFromHeader(authorization: Option<string>): (r: Result<Option<string>, AuthError>)
    ensures authorization.None? ==> r == Ok(None)
    ensures authorization.Some? && HeaderText(authorization.value).None? ==> r == Ok(None)
    ensures authorization.Some? && HeaderText(authorization.value).Some? ==>
              var v := authorization.value;
              && (v == AUTH_BEARER_TOKEN_HEADER_PREFIX ==> r == Ok(Some("")))
              && (StartsWith(v, AUTH_BEARER_TOKEN_HEADER_PREFIX + " ") ==> r == Ok(Some(v[|AUTH_BEARER_TOKEN_HEADER_PREFIX| + 1..])))
              && (v != AUTH_BEARER_TOKEN_HEADER_PREFIX && !StartsWith(v, AUTH_BEARER_TOKEN_HEADER_PREFIX + " ") ==>
                    r == Err(UnknownTokenProvided))
  {
    match authorization
    case None => Ok(None)
    case Some(raw) =>
      match HeaderText(raw)
      case None => Ok(None)
      case Some(v) =>
        if v == AUTH_BEARER_TOKEN_HEADER_PREFIX then Ok(Some(""))
        else if !StartsWith(v, AUTH_BEARER_TOKEN_HEADER_PREFIX + " ") then Err(UnknownTokenProvided)
        else Ok(Some(v[|AUTH_BEARER_TOKEN_HEADER_PREFIX| + 1..]))
  }

  /** A header built from a readable token gives that token back. */
  lemma BearerRoundTrip(token: string)
    requires forall i :: 0 <= i < |token| ==> VisibleAscii(token[i])
    ensures ExtractBearerTokenFromHeader(Some(AUTH_BEARER_TOKEN_HEADER_PREFIX + " " + token)) == Ok(Some(token))
  {
    var v := AUTH_BEARER_TOKEN_HEADER_PREFIX + " " + token;
    assert forall i :: 0 <= i < |v| ==> VisibleAscii(v[i]) by {
      forall i | 0 <= i < |v| ensures VisibleAscii(v[i]) {
        if i >= 7 { assert v[i] == token[i - 7]; }
      }
    }
    assert v[..7] == AUTH_BEARER_TOKEN_HEADER_PREFIX + " ";
    assert v[7..] == token;
  }

  /** `authenticate`: the token is the value of some configured access token. */
  predicate Authenticate(token: string, tokens: AccessTokens)
  {
    token in tokens.Values
  }

  /**
   * `auth`: a header error is returned as is; the header token wins over the
   * query token; with neither the request is `Unauthorized`; a token that is
   * not configured is `TokenNotValid`; otherwise the request passes with it.
   */
  function Auth(authorization: Option<string>, queryToken: Option<string>, tokens: AccessTokens): (r: Result<string, AuthError>)
    ensures ExtractBearerTokenFromHeader(authorization).Err? ==> r == Err(ExtractBearerTokenFromHeader(authorization).error)
    ensures ExtractBearerTokenFromHeader(authorization) == Ok(None) && queryToken.None? ==> r == Err(Unauthorized)
    ensures r.Ok? ==> (exists name :: name in tokens && tokens[name] == r.value)
    ensures r.Ok? ==> r.value == (if ExtractBearerTokenFromHeader(authorization).value.Some?
                                  then ExtractBearerTokenFromHeader(authorization).value.value
                                  else queryToken.value)
    ensures r == Err(TokenNotValid) ==> ExtractBearerTokenFromHeader(authorization).Ok?
  {
    match ExtractBearerTokenFromHeader(authorization)
    case Err(e) => Err(e)
    case Ok(fromHeader) =>
      var provided := if fromHeader.Some? then Some(fromHeader.value) else queryToken;
      match provided
      case None => Err(Unauthorized)
      case Some(token) =>
        if !Authenticate(token, tokens) then Err(TokenNotValid) else Ok(token)
  }

  /**
   * A request with a readable header token is decided by that token alone,
   * whatever the query says.
   */
  lemma HeaderTakesPrecedence(authorization: Option<string>, q1: Option<string>, q2: Option<string>, tokens: AccessTokens)
    requires ExtractBearerTokenFromHeader(authorization).Ok?
    requires ExtractBearerTokenFromHeader(authorization).value.Some?
    ensures Auth(authorization, q1, tokens) == Auth(authorization, q2, tokens)
    ensures var t := ExtractBearerTokenFromHeader(authorization).value.value;
            Auth(authorization, q1, tokens) == if Authenticate(t, tokens) then Ok(t) else Err(TokenNotValid)
  {
  }

  /** A provided token is accepted exactly when it is configured. */
  lemma AcceptedIffConfigured(token: string, tokens: AccessTokens)
    ensures Auth(None, Some(token), tokens).Ok? <==> exists name :: name in tokens && tokens[name] == token
    ensures Auth(None, Some(token), tokens).Err? ==> Auth(None, Some(token), tokens) == Err(TokenNotValid)
  {
  }
}
