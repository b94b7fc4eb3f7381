/**
 * `validateToken`: reads the Authorization header, removes the first "Bearer "
 * in it and verifies what is left with the JWT oracle `verify`.
 */
module AuthMiddleware {
  import opened Wrappers
  import opened Text
  import opened Http

  const BearerPrefix: string := "Bearer "

  /** Either `req.user` is set to the decoded payload and `next()` is called, or a 401 ends the request. */
  datatype TokenCheck<P> = Authenticated(user: P) | Rejected(response: Response<()>)

  /** A header that is absent or empty is falsy. */
  predicate Missing(header: Option<string>)
  {
    header.None? || header.value == ""
  }

  function ValidateToken<P>(header: Option<string>, verify: string -> Result<P, string>): (r: TokenCheck<P>)
    ensures Missing(header) ==> r == Rejected(Error(401, "Access denied"))
    ensures r.Authenticated? <==> !Missing(header) && verify(StripFirst(header.value, BearerPrefix)).Ok?
    ensures r.Authenticated? ==> r.user == verify(StripFirst(header.value, BearerPrefix)).value
    ensures !Missing(header) && r.Rejected? ==> r == Rejected(Error(401, "Invalid token"))
  {
    if Missing(header) then Rejected(Error(401, "Access denied"))
    else
      match verify(StripFirst(header.value, BearerPrefix))
      case Ok(decoded) => Authenticated(decoded)
      case Err(_) => Rejected(Error(401, "Invalid token"))
  }

  /** "Bearer <token>" is verified as exactly <token>. */
  lemma BearerHeader<P>(token: string, verify: string -> Result<P, string>)
    ensures ValidateToken(Some(BearerPrefix + token), verify)
      == match verify(token)
         case Ok(decoded) => Authenticated(decoded)
         case Err(_) => Rejected(Error(401, "Invalid token"))
  {
    StripLeading(BearerPrefix, token);
  }

  /** Only the first "Bearer " is removed: "Bearer Bearer t" is verified as "Bearer t". */
  lemma RepeatedBearer<P>(token: string, verify: string -> Result<P, string>)
    ensures ValidateToken(Some(BearerPrefix + BearerPrefix + token), verify).Authenticated?
      <==> verify(BearerPrefix + token).Ok?
  {
    var header := BearerPrefix + BearerPrefix + token;
    assert header == BearerPrefix + (BearerPrefix + token);
    StripLeading(BearerPrefix, BearerPrefix + token);
  }

  /** A header without "Bearer " is verified as it stands. */
  lemma BareToken<P>(header: string, verify: string -> Result<P, string>)
    requires header != ""
    requires forall k :: 0 <= k ==> !OccursAt(header, BearerPrefix, k)
    ensures ValidateToken(Some(header), verify).Authenticated? <==> verify(header).Ok?
  {
  }
}
