/** Access tokens: the claim set a token carries, how one is issued, and what decoding
    one accepts. Signing is modelled symbolically: a token produced with the server's key
    and algorithm is `Signed` with them, and no party can alter its claims without the
    key, so a `Signed` token whose key or algorithm differs, or a `Garbled` string, is
    exactly a token whose signature does not verify. */
module Security {
  import opened Models

  const SecretKey := "developer_ganteng_suaminya_waguri"
  const Algorithm := "HS256"
  const AccessTokenExpireMinutes := 30
  /** The lifetime in seconds, the unit of the `exp` claim. */
  const AccessTokenLifetime := AccessTokenExpireMinutes * 60

  datatype ClaimValue = Text(text: string) | Number(number: int)

  type Claims = map<string, ClaimValue>

  datatype Jwt = Signed(claims: Claims, key: string, algorithm: string) | Garbled(raw: string)

  /** The claims of a token issued at time `now` (seconds): a copy of `data` whose `exp`
      is set to `now` plus the lifetime; `data` itself is a value and stays as it was. */
  function CreateAccessToken(data: Claims, now: int): (t: Jwt)
    ensures t.Signed? && t.key == SecretKey && t.algorithm == Algorithm
    ensures t.claims.Keys == data.Keys + {"exp"}
    ensures t.claims["exp"] == Number(now + AccessTokenLifetime)
    ensures forall c :: c in data && c != "exp" ==> t.claims[c] == data[c]
  {
    Signed(data["exp" := Number(now + AccessTokenLifetime)], SecretKey, Algorithm)
  }

  /** The token's `exp` has passed: decoding rejects `exp < now` and an `exp` that is not
      a number; a token without `exp` never expires. */
  predicate Expired(claims: Claims, now: int) {
    "exp" in claims && (!claims["exp"].Number? || claims["exp"].number < now)
  }

  /** When present, the `sub` claim must be text. */
  predicate SubjectWellTyped(claims: Claims) {
    "sub" in claims ==> claims["sub"].Text?
  }

  /** Decoding at time `now`: the claims when the signature verifies and the registered
      claims are acceptable, `None` where the library raises its token error. */
  function Decode(token: Jwt, now: int): (r: Option<Claims>)
    ensures r.Some? ==> token.Signed? && r.value == token.claims
    ensures r.Some? ==> token.key == SecretKey && token.algorithm == Algorithm
    ensures r.Some? ==> !Expired(r.value, now) && SubjectWellTyped(r.value)
    ensures (token.Signed? && token.key == SecretKey && token.algorithm == Algorithm
             && !Expired(token.claims, now) && SubjectWellTyped(token.claims)) ==> r.Some?
  {
    match token
    case Garbled(_) => None
    case Signed(claims, key, algorithm) =>
      if key != SecretKey || algorithm != Algorithm then None
      else if Expired(claims, now) || !SubjectWellTyped(claims) then None
      else Some(claims)
  }

  /** A token issued at `issued` decodes to the claims it was issued with at every time up
      to `issued` plus the lifetime, and to nothing afterwards. */
  lemma TokenRoundTrip(data: Claims, issued: int, at: int)
    requires SubjectWellTyped(data)
    ensures Decode(CreateAccessToken(data, issued), at)
            == if at <= issued + AccessTokenLifetime
               then Some(data["exp" := Number(issued + AccessTokenLifetime)])
               else None
  {
    var t := CreateAccessToken(data, issued);
    assert SubjectWellTyped(t.claims);
  }
}
