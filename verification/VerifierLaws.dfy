/** What a verifier accepts. */
module VerifierLaws {
  import opened ByteStrings
  import opened Token
  import opened Verifier
  import Json
  import JsonLaws
  import TokenLaws

  // ---- Dates ----

  /**
   * With nothing registered, a token is accepted if and only if the algorithm it names is allowed and verifies its
   * signature, and each of its dates is missing, or is an integer with the current time on the right side of it,
   * widened by the leeway.
   */
  lemma DefaultWindow(jwt: DecodedJwt, now: real, leeway: nat, algs: map<Bytes, Algorithm>)
    ensures Accepts(jwt, now, DEFAULT_CHECKS, leeway, algs)
       <==> && "alg" in jwt.headerClaims && jwt.headerClaims["alg"].Str? && jwt.headerClaims["alg"].s in algs
            && algs[jwt.headerClaims["alg"].s].verify(jwt.headerBase64 + "." + jwt.payloadBase64, jwt.signature)
            && ("exp" in jwt.payloadClaims ==>
                  jwt.payloadClaims["exp"].Int? && now <= (jwt.payloadClaims["exp"].i as int + leeway) as real)
            && ("iat" in jwt.payloadClaims ==>
                  jwt.payloadClaims["iat"].Int? && now >= (jwt.payloadClaims["iat"].i as int - leeway) as real)
            && ("nbf" in jwt.payloadClaims ==>
                  jwt.payloadClaims["nbf"].Int? && now >= (jwt.payloadClaims["nbf"].i as int - leeway) as real)
  {
    var checks := DEFAULT_CHECKS;
    assert checks["exp"] == EXP_CHECK && checks["iat"] == IAT_CHECK && checks["nbf"] == NBF_CHECK;
    assert checks.Keys == {"exp", "iat", "nbf"};
  }

  /** The check passes with every greater leeway, too. */
  ghost predicate LeewayMonotone(check: Check) {
    forall ctx: VerifyContext, more: nat ::
      ctx.defaultLeeway <= more && check(ctx) == Pass ==> check(ctx.(defaultLeeway := more)) == Pass
  }

  lemma DateVerdictMonotone(now: real, date: int, expires: bool, leeway: nat, more: nat)
    requires leeway <= more && DateVerdict(now, date, expires, leeway) == Pass
    ensures DateVerdict(now, date, expires, more) == Pass
  {
  }

  lemma DefaultChecksMonotone()
    ensures forall name :: name in DEFAULT_CHECKS ==> LeewayMonotone(DEFAULT_CHECKS[name])
  {
    forall ctx: VerifyContext, name: Bytes, expires: bool, more: nat
      | ctx.defaultLeeway <= more && DateCheck(ctx, name, expires, ctx.defaultLeeway) == Pass
      ensures DateCheck(ctx.(defaultLeeway := more), name, expires, more) == Pass
    {
    }
    assert LeewayMonotone(EXP_CHECK) && LeewayMonotone(IAT_CHECK) && LeewayMonotone(NBF_CHECK);
  }

  /** Raising the leeway never turns an accepted token down, if no check minds. */
  lemma MoreLeewayAccepts(jwt: DecodedJwt, now: real, claims: map<Bytes, Check>, leeway: nat, more: nat,
                          algs: map<Bytes, Algorithm>)
    requires leeway <= more && Accepts(jwt, now, claims, leeway, algs)
    requires forall name :: name in claims ==> LeewayMonotone(claims[name])
    ensures Accepts(jwt, now, claims, more, algs)
  {
    forall name | name in claims ensures claims[name](VerifyContext(now, jwt, more, name)) == Pass {
      var ctx := VerifyContext(now, jwt, leeway, name);
      assert claims[name](ctx) == Pass && ctx.(defaultLeeway := more) == VerifyContext(now, jwt, more, name);
    }
  }

  /** With the checks a verifier starts with, raising the leeway never turns an accepted token down. */
  lemma DefaultAcceptsMore(jwt: DecodedJwt, now: real, leeway: nat, more: nat, algs: map<Bytes, Algorithm>)
    requires leeway <= more && Accepts(jwt, now, DEFAULT_CHECKS, leeway, algs)
    ensures Accepts(jwt, now, DEFAULT_CHECKS, more, algs)
  {
    DefaultChecksMonotone();
    MoreLeewayAccepts(jwt, now, DEFAULT_CHECKS, leeway, more, algs);
  }

  // ---- Registered claims ----

  /** `equals_claim` passes exactly if the claim is there and is that value; no claim equals null. */
  lemma EqualsCheckIsEquality(ctx: VerifyContext, expected: Json.Value)
    ensures EqualsCheck(ctx, expected) == Pass
       <==> && expected != Json.Null
            && ctx.claimKey in ctx.jwt.payloadClaims
            && ctx.jwt.payloadClaims[ctx.claimKey] == expected
    ensures EqualsCheck(ctx, expected) == Throw
       <==> || expected == Json.Null
            || (ctx.claimKey in ctx.jwt.payloadClaims && ctx.jwt.payloadClaims[ctx.claimKey] == Json.Null)
    ensures EqualsCheck(ctx, expected) == Fail(MissingClaim)
       <==> expected != Json.Null && ctx.claimKey !in ctx.jwt.payloadClaims
    ensures EqualsCheck(ctx, expected) == Fail(ClaimTypeMismatch)
       <==> && ctx.claimKey in ctx.jwt.payloadClaims
            && var v := ctx.jwt.payloadClaims[ctx.claimKey];
            match expected
            case Null => false
            case Bool(_) => !v.Null? && !v.Bool?
            case Int(_) => !v.Null? && !v.Int?
            case Str(_) => !v.Null? && !v.Str?
            case Arr(_) => !v.Null? && !v.Arr?
            case Obj(_) => !v.Null? && !v.Obj?
    ensures EqualsCheck(ctx, expected) in
      [Pass, Throw, Fail(MissingClaim), Fail(ClaimTypeMismatch), Fail(ClaimValueMismatch)]
  {
    if ctx.claimKey in ctx.jwt.payloadClaims {
      JsonLaws.SerializedInjective(expected, ctx.jwt.payloadClaims[ctx.claimKey], false);
    }
  }

  /** The audience a claim stands for: a string, or an array of strings. */
  ghost function AudienceOf(v: Json.Value): Option<set<Bytes>> {
    match v
    case Str(s) => Some({s})
    case Arr(items) =>
      if AllStrings(items) then Some(set i | 0 <= i < |items| && items[i].Str? :: items[i].s) else None
    case _ => None
  }

  lemma AudienceOfArray(items: seq<Json.Value>, e: Bytes)
    requires AllStrings(items)
    ensures Json.Str(e) in items <==> e in AudienceOf(Json.Arr(items)).value
  {
    if e in AudienceOf(Json.Arr(items)).value {
      var i :| 0 <= i < |items| && items[i].Str? && items[i].s == e;
      assert items[i] == Json.Str(e);
    }
  }

  /**
   * `is_subset_claim` passes if and only if the claim is there and stands for an audience that contains what is
   * expected, all of it if it is a single string; it throws for null and for arrays with anything but strings.
   */
  lemma SubsetCheckIsSubset(ctx: VerifyContext, expected: set<Bytes>)
    ensures SubsetCheck(ctx, expected) == Pass
       <==> && ctx.claimKey in ctx.jwt.payloadClaims
            && var v := ctx.jwt.payloadClaims[ctx.claimKey];
            && AudienceOf(v).Some?
            && expected <= AudienceOf(v).value
            && (v.Str? ==> expected != {})
    ensures SubsetCheck(ctx, expected) == Throw
       <==> && ctx.claimKey in ctx.jwt.payloadClaims
            && var v := ctx.jwt.payloadClaims[ctx.claimKey];
            v.Null? || (v.Arr? && AudienceOf(v).None?)
    ensures SubsetCheck(ctx, expected) == Fail(MissingClaim) <==> ctx.claimKey !in ctx.jwt.payloadClaims
    ensures SubsetCheck(ctx, expected) == Fail(ClaimTypeMismatch)
       <==> && ctx.claimKey in ctx.jwt.payloadClaims
            && var v := ctx.jwt.payloadClaims[ctx.claimKey];
            v.Bool? || v.Int? || v.Obj?
    ensures SubsetCheck(ctx, expected) in
      [Pass, Throw, Fail(MissingClaim), Fail(ClaimTypeMismatch), Fail(AudienceMismatch)]
  {
    if ctx.claimKey in ctx.jwt.payloadClaims {
      match ctx.jwt.payloadClaims[ctx.claimKey]
      case Str(s) =>
        if expected <= {s} && expected != {} {
          assert expected == {s};
        }
      case Arr(items) =>
        if AllStrings(items) {
          forall e | e in expected ensures Json.Str(e) in items <==> e in AudienceOf(Json.Arr(items)).value {
            AudienceOfArray(items, e);
          }
        }
      case _ =>
    }
  }

  /** A check with a leeway of its own passes exactly if the claim is there, is an integer and lies in the window. */
  lemma OwnLeewayWindow(ctx: VerifyContext, expires: bool, leeway: nat)
    ensures OwnLeewayCheck(ctx, expires, leeway) == Pass
       <==> && ctx.claimKey in ctx.jwt.payloadClaims
            && ctx.jwt.payloadClaims[ctx.claimKey].Int?
            && var date := ctx.jwt.payloadClaims[ctx.claimKey].i as int;
            if expires then ctx.currentTime <= (date + leeway) as real else ctx.currentTime >= (date - leeway) as real
    ensures OwnLeewayCheck(ctx, expires, leeway) == Fail(MissingClaim) <==> ctx.claimKey !in ctx.jwt.payloadClaims
    ensures OwnLeewayCheck(ctx, expires, leeway) == Throw
       <==> ctx.claimKey in ctx.jwt.payloadClaims && ctx.jwt.payloadClaims[ctx.claimKey] == Json.Null
    ensures OwnLeewayCheck(ctx, expires, leeway) == Fail(ClaimTypeMismatch)
       <==> && ctx.claimKey in ctx.jwt.payloadClaims
            && !ctx.jwt.payloadClaims[ctx.claimKey].Null? && !ctx.jwt.payloadClaims[ctx.claimKey].Int?
    ensures OwnLeewayCheck(ctx, expires, leeway) in
      [Pass, Throw, Fail(MissingClaim), Fail(ClaimTypeMismatch), Fail(TokenExpired)]
  {
  }

  /** Such a check passes with every greater leeway, too. */
  lemma OwnLeewayMonotone(ctx: VerifyContext, expires: bool, leeway: nat, more: nat)
    requires leeway <= more && OwnLeewayCheck(ctx, expires, leeway) == Pass
    ensures OwnLeewayCheck(ctx, expires, more) == Pass
  {
    DateVerdictMonotone(ctx.currentTime, TypedClaim(ctx, Integer).value.i as int, expires, leeway, more);
  }

  // ---- From signing to verifying ----

  ghost predicate VerifiesOwnSignatures(alg: Algorithm) {
    forall data: Bytes :: alg.sign(data).Some? ==> alg.verify(data, alg.sign(data).value)
  }

  lemma NoneVerifiesItself()
    ensures VerifiesOwnSignatures(NONE)
    ensures forall data: Bytes, signature: Bytes :: NONE.verify(data, signature) <==> signature == []
  {
  }

  /**
   * A token that was built, signed and decoded passes the signature check of a verifier that allows its algorithm,
   * which is handed exactly the text that was signed; so it is accepted if and only if its claims pass.
   */
  lemma SignDecodeVerify(header: Claims, payload: Claims, alg: Algorithm, algs: map<Bytes, Algorithm>)
    requires "alg" in header ==> header["alg"] == Json.Str(alg.name)
    requires VerifiesOwnSignatures(alg) && alg.name in algs && algs[alg.name] == alg
    requires Signed(header, payload, alg).Ok?
    requires TokenLaws.ClaimsFit(CompleteHeader(header, alg)) && TokenLaws.ClaimsFit(payload)
    ensures var r := DecodedToken(Signed(header, payload, alg).value);
      && r.Ok?
      && SignedText(r.value) == SigningInput(CompleteHeader(header, alg), payload)
      && AlgorithmOf(r.value) == Some(alg.name)
      && SignatureVerdict(r.value, algs) == Pass
      && forall now: real, claims: map<Bytes, Check>, leeway: nat ::
           Accepts(r.value, now, claims, leeway, algs)
           <==> forall name :: name in claims ==> claims[name](VerifyContext(now, r.value, leeway, name)) == Pass
  {
    TokenLaws.SignThenDecode(header, payload, alg);
    var d := DecodedToken(Signed(header, payload, alg).value).value;
    assert d.headerClaims == CompleteHeader(header, alg);
  }
}
