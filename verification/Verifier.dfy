/** Checking a decoded token: its algorithm, its signature and its claims. */
module Verifier {
  import opened ByteStrings
  import opened Token
  import Json

  datatype VerifyError =
    | WrongAlgorithm
    | InvalidSignature
    | MissingClaim
    | ClaimTypeMismatch
    | ClaimValueMismatch
    | AudienceMismatch
    | TokenExpired

  /** The end of a check, or of the whole verification. */
  datatype Verdict = Pass | Fail(error: VerifyError) | Throw

  datatype VerifyContext = VerifyContext(currentTime: real, jwt: DecodedJwt, defaultLeeway: nat, claimKey: Bytes)

  type Check = VerifyContext -> Verdict

  datatype JsonType = Boolean | Integer | String | Array | Object

  /** `get_type`; a null value makes it throw. */
  function TypeOf(v: Json.Value): Option<JsonType> {
    match v
    case Null => None
    case Bool(_) => Some(Boolean)
    case Int(_) => Some(Integer)
    case Str(_) => Some(String)
    case Arr(_) => Some(Array)
    case Obj(_) => Some(Object)
  }

  // ---- The checks a verifier starts with ----

  /** The date in a claim is compared if the claim is there; a claim that is no integer makes the access throw. */
  function DateCheck(ctx: VerifyContext, name: Bytes, expires: bool, leeway: nat): Verdict {
    if name !in ctx.jwt.payloadClaims then Pass
    else if !ctx.jwt.payloadClaims[name].Int? then Throw
    else DateVerdict(ctx.currentTime, ctx.jwt.payloadClaims[name].i, expires, leeway)
  }

  function DateVerdict(now: real, date: int, expires: bool, leeway: nat): Verdict {
    var late := if expires then now > (date + leeway) as real else now < (date - leeway) as real;
    if late then Fail(TokenExpired) else Pass
  }

  const EXP_CHECK: Check := (ctx: VerifyContext) => DateCheck(ctx, "exp", true, ctx.defaultLeeway)
  const IAT_CHECK: Check := (ctx: VerifyContext) => DateCheck(ctx, "iat", false, ctx.defaultLeeway)
  const NBF_CHECK: Check := (ctx: VerifyContext) => DateCheck(ctx, "nbf", false, ctx.defaultLeeway)

  const DEFAULT_CHECKS: map<Bytes, Check> := map["exp" := EXP_CHECK, "iat" := IAT_CHECK, "nbf" := NBF_CHECK]

  // ---- The checks a caller may register ----

  /** `get_claim` with an expected type: the claim, or the verdict. */
  function TypedClaim(ctx: VerifyContext, wanted: JsonType): Result<Json.Value, Verdict> {
    if ctx.claimKey !in ctx.jwt.payloadClaims then Err(Fail(MissingClaim))
    else
      var v := ctx.jwt.payloadClaims[ctx.claimKey];
      match TypeOf(v)
      case None => Err(Throw)
      case Some(t) => if t == wanted then Ok(v) else Err(Fail(ClaimTypeMismatch))
  }

  /** `date_before_claim` and `date_after_claim`: a leeway of their own, and the claim must be there. */
  function OwnLeewayCheck(ctx: VerifyContext, expires: bool, leeway: nat): Verdict {
    match TypedClaim(ctx, Integer)
    case Err(verdict) => verdict
    case Ok(v) => if v.Int? then DateVerdict(ctx.currentTime, v.i, expires, leeway) else Pass
  }

  /** `equals_claim`: scalars are compared as such, arrays and objects by their text. */
  function EqualsCheck(ctx: VerifyContext, expected: Json.Value): Verdict {
    match TypeOf(expected)
    case None => Throw
    case Some(wanted) =>
      match TypedClaim(ctx, wanted)
      case Err(verdict) => verdict
      case Ok(v) =>
        var matches :=
          if expected.Arr? || expected.Obj? then Json.Serialized(expected, false) == Json.Serialized(v, false)
          else expected == v;
        if matches then Pass else Fail(ClaimValueMismatch)
  }

  predicate AllStrings(items: seq<Json.Value>) {
    forall i :: 0 <= i < |items| ==> items[i].Str?
  }

  /** `is_subset_claim`: a string counts as the set of itself. */
  function SubsetCheck(ctx: VerifyContext, expected: set<Bytes>): Verdict {
    if ctx.claimKey !in ctx.jwt.payloadClaims then Fail(MissingClaim)
    else
      match ctx.jwt.payloadClaims[ctx.claimKey]
      case Null => Throw
      case Str(s) => if expected == {s} then Pass else Fail(AudienceMismatch)
      case Arr(items) =>
        if !AllStrings(items) then Throw
        else if forall e :: e in expected ==> Json.Str(e) in items then Pass
        else Fail(AudienceMismatch)
      case _ => Fail(ClaimTypeMismatch)
  }

  // ---- The verifier ----

  /** `get_algorithm`: throws without an "alg" that is a string. */
  function AlgorithmOf(jwt: DecodedJwt): Option<Bytes> {
    if "alg" in jwt.headerClaims && jwt.headerClaims["alg"].Str? then Some(jwt.headerClaims["alg"].s) else None
  }

  function SignedText(jwt: DecodedJwt): Bytes {
    jwt.headerBase64 + "." + jwt.payloadBase64
  }

  /** The verdict on algorithm and signature, before any claim is looked at. */
  function SignatureVerdict(jwt: DecodedJwt, algs: map<Bytes, Algorithm>): Verdict {
    match AlgorithmOf(jwt)
    case None => Throw
    case Some(name) =>
      if name !in algs then Fail(WrongAlgorithm)
      else if !algs[name].verify(SignedText(jwt), jwt.signature) then Fail(InvalidSignature)
      else Pass
  }

  /** The condition `Verify` decides: no order of the checks occurs in it. */
  ghost predicate Accepts(jwt: DecodedJwt, now: real, claims: map<Bytes, Check>, leeway: nat,
                          algs: map<Bytes, Algorithm>)
  {
    && SignatureVerdict(jwt, algs) == Pass
    && forall name :: name in claims ==> claims[name](VerifyContext(now, jwt, leeway, name)) == Pass
  }

  class Verifier {
    var claims: map<Bytes, Check>
    var defaultLeeway: nat
    var algs: map<Bytes, Algorithm>

    constructor ()
      ensures claims == DEFAULT_CHECKS && defaultLeeway == 0 && algs == map[]
    {
      claims := DEFAULT_CHECKS;
      defaultLeeway := 0;
      algs := map[];
    }

    method Leeway(leeway: nat)
      modifies this`defaultLeeway
      ensures defaultLeeway == leeway
    {
      defaultLeeway := leeway;
    }

    method WithClaim(name: Bytes, check: Check)
      modifies this`claims
      ensures claims == old(claims)[name := check]
    {
      claims := claims[name := check];
    }

    method AllowAlgorithm(alg: Algorithm)
      modifies this`algs
      ensures algs == old(algs)[alg.name := alg]
    {
      algs := algs[alg.name := alg];
    }

    /** The verdict of the check registered for `name`. */
    function ClaimVerdict(jwt: DecodedJwt, now: real, name: Bytes): Verdict
      requires name in claims
      reads this
    {
      claims[name](VerifyContext(now, jwt, defaultLeeway, name))
    }

    /** `verify`: the checks run in whatever order the hash table has, up to the first that does not pass. */
    method Verify(jwt: DecodedJwt, now: real) returns (verdict: Verdict)
      ensures SignatureVerdict(jwt, algs) != Pass ==> verdict == SignatureVerdict(jwt, algs)
      ensures SignatureVerdict(jwt, algs) == Pass && verdict != Pass ==>
        exists name :: name in claims && ClaimVerdict(jwt, now, name) == verdict
      ensures verdict == Pass <==> Accepts(jwt, now, claims, defaultLeeway, algs)
      ensures verdict == Pass
         <==> && "alg" in jwt.headerClaims && jwt.headerClaims["alg"].Str? && jwt.headerClaims["alg"].s in algs
              && algs[jwt.headerClaims["alg"].s].verify(jwt.headerBase64 + "." + jwt.payloadBase64, jwt.signature)
              && forall name :: name in claims ==> claims[name](VerifyContext(now, jwt, defaultLeeway, name)) == Pass
      ensures !("alg" in jwt.headerClaims && jwt.headerClaims["alg"].Str?) ==> verdict == Throw
      ensures "alg" in jwt.headerClaims && jwt.headerClaims["alg"].Str? ==>
        var name := jwt.headerClaims["alg"].s;
        && (name !in algs ==> verdict == Fail(WrongAlgorithm))
        && (name in algs && !algs[name].verify(jwt.headerBase64 + "." + jwt.payloadBase64, jwt.signature) ==>
              verdict == Fail(InvalidSignature))
        && (name in algs && algs[name].verify(jwt.headerBase64 + "." + jwt.payloadBase64, jwt.signature) ==>
              verdict == Pass || exists c :: c in claims && ClaimVerdict(jwt, now, c) == verdict)
    {
      assert forall name :: name in claims ==>
        ClaimVerdict(jwt, now, name) == claims[name](VerifyContext(now, jwt, defaultLeeway, name));
      var data := jwt.headerBase64 + "." + jwt.payloadBase64;
      var algo := AlgorithmOf(jwt);
      if algo.None? {
        return Throw;
      }
      if algo.value !in algs {
        return Fail(WrongAlgorithm);
      }
      if !algs[algo.value].verify(data, jwt.signature) {
        return Fail(InvalidSignature);
      }
      var ctx := VerifyContext(now, jwt, defaultLeeway, []);
      var left := claims.Keys;
      while left != {}
        invariant left <= claims.Keys
        invariant forall name :: name in claims && name !in left ==> ClaimVerdict(jwt, now, name) == Pass
        invariant ctx.(claimKey := []) == VerifyContext(now, jwt, defaultLeeway, [])
        decreases left
      {
        var name :| name in left;
        ctx := ctx.(claimKey := name);
        var r := claims[name](ctx);
        if r != Pass {
          assert ClaimVerdict(jwt, now, name) == r;
          return r;
        }
        left := left - {name};
      }
      return Pass;
    }
  }
}
