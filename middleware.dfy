/** The decision `AuthMiddleware` makes about the Authorization header:
    reject with 401 (missing header, wrong format, invalid token) or pass
    the request on with the token's username. Token validation belongs to
    the auth service, which is not part of this model: it is a parameter. */
module Middleware {
  import opened Wrappers
  import Http

  const BearerPrefix := "Bearer "

  /** Go's `strings.TrimPrefix`: one copy of `prefix` removed from the front
      when it is there, the string untouched otherwise. */
  function TrimPrefix(s: string, prefix: string): (r: string)
    ensures prefix <= s ==> s == prefix + r
    ensures !(prefix <= s) ==> r == s
  {
    if prefix <= s then s[|prefix|..] else s
  }

  /** What a validated token yields; the middleware uses only the username. */
  datatype Claims = Claims(username: string)

  /** How the header is read before validation. */
  datatype Authorization = Missing | BadFormat | Token(token: string)

  /** The header checks in the middleware's order: an empty header is
      missing; a header that trimming leaves unchanged has the wrong format;
      otherwise what trimming leaves is the token. */
  function ParseAuthorization(header: string): (a: Authorization)
    ensures a == Missing <==> header == ""
    ensures a == BadFormat <==> header != "" && !(BearerPrefix <= header)
    ensures a.Token? ==> header == BearerPrefix + a.token
  {
    if header == "" then Missing
    else
      var token := TrimPrefix(header, BearerPrefix);
      if token == header then BadFormat else Token(token)
  }

  /** Exactly one leading "Bearer " is removed, whatever follows it, a second
      "Bearer " or nothing at all. */
  lemma ParseBearerToken(token: string)
    ensures ParseAuthorization(BearerPrefix + token) == Token(token)
  {
  }

  /** The header "Bearer " passes the format check with an empty token. */
  lemma BareBearerHasEmptyToken()
    ensures ParseAuthorization(BearerPrefix) == Token("")
  {
  }

  /** The middleware's verdict: `Forward` means `next` runs once with the
      username in the request context. */
  datatype Verdict = Unauthorized(error: string, message: string) | Forward(username: string) {
    function Status(): int {
      if Unauthorized? then Http.StatusUnauthorized else Http.StatusOK
    }
  }

  function Authorize(header: string, validate: string -> Result<Claims, string>): (v: Verdict)
    ensures header == "" ==> v == Unauthorized("Missing authorization header", "")
    ensures header != "" && !(BearerPrefix <= header) ==> v == Unauthorized("Invalid token format", "")
    ensures v.Forward? <==> BearerPrefix <= header && validate(header[|BearerPrefix|..]).Success?
    ensures v.Forward? ==> v.username == validate(header[|BearerPrefix|..]).value.username
    ensures BearerPrefix <= header && validate(header[|BearerPrefix|..]).Failure? ==>
              v == Unauthorized("Invalid token", validate(header[|BearerPrefix|..]).error)
  {
    match ParseAuthorization(header)
    case Missing => Unauthorized("Missing authorization header", "")
    case BadFormat => Unauthorized("Invalid token format", "")
    case Token(token) =>
      match validate(token)
      case Failure(e) => Unauthorized("Invalid token", e)
      case Success(claims) => Forward(claims.username)
  }

  /** A request is forwarded exactly when its header is "Bearer " followed by
      a token the validator accepts, and then with that token's username. */
  lemma ForwardedExactlyWithValidBearer(token: string, validate: string -> Result<Claims, string>)
    ensures Authorize(BearerPrefix + token, validate)
            == match validate(token)
               case Success(claims) => Forward(claims.username)
               case Failure(e) => Unauthorized("Invalid token", e)
  {
  }
}
