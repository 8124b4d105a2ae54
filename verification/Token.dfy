/** JSON Web Tokens: building, signing and decoding, on top of the JSON and base64url modules. */
module Token {
  import opened ByteStrings
  import B = Base64
  import Json
  import JsonGrammar
  import JsonParser
  import JsonPrinter

  type Claims = Json.Object

  /** A signature algorithm: `sign` may fail, `verify` compares a signature with the data it should be of. */
  datatype Algorithm = Algorithm(name: Bytes, sign: Bytes -> Option<Bytes>, verify: (Bytes, Bytes) -> bool)

  /** `algorithm::none`: the empty signature, and no other. */
  const NONE: Algorithm := Algorithm("none", data => Some([]), (data, signature) => signature == [])

  datatype Failure =
    | SigningFailed
    | InvalidToken
    | InvalidBase64(error: B.DecodeError)
    | InvalidJson
    | NoObject
    | UnmodelledNumber

  // ---- Parts of a token ----

  /** base64url without its fills. */
  function EncodedPart(data: Bytes): Bytes {
    B.Trimmed(B.Encoded(data, B.BASE64URL), B.BASE64URL)
  }

  function DecodedPart(part: Bytes): Result<Bytes, Failure> {
    match B.Decoded(B.Padded(part, B.BASE64URL), B.BASE64URL)
    case Ok(data) => Ok(data)
    case Err(e) => Err(InvalidBase64(e))
  }

  method EncodePart(data: Bytes) returns (part: Bytes)
    ensures part == EncodedPart(data)
    ensures part == B.Trimmed(B.Encoded(data, B.BASE64URL), B.BASE64URL)
  {
    var encoded := B.Encode(data, B.BASE64URL);
    part := B.Trimmed(encoded, B.BASE64URL);
  }

  method DecodePart(part: Bytes) returns (r: Result<Bytes, Failure>)
    ensures r == DecodedPart(part)
    ensures match B.Decoded(B.Padded(part, B.BASE64URL), B.BASE64URL)
            case Ok(data) => r == Ok(data)
            case Err(e) => r == Err(InvalidBase64(e))
  {
    var padded := B.Pad(part, B.BASE64URL);
    var decoded := B.Decode(padded, B.BASE64URL);
    r := match decoded case Ok(data) => Ok(data) case Err(e) => Err(InvalidBase64(e));
  }

  // ---- Building ----

  /** The header that is signed: "alg" is filled in if the caller has not set it. */
  function CompleteHeader(header: Claims, alg: Algorithm): Claims {
    if "alg" in header then header else header["alg" := Json.Str(alg.name)]
  }

  function SigningInput(header: Claims, payload: Claims): Bytes {
    EncodedPart(Json.Serialized(Json.Obj(header), false)) + "."
    + EncodedPart(Json.Serialized(Json.Obj(payload), false))
  }

  function Signed(header: Claims, payload: Claims, alg: Algorithm): Result<Bytes, Failure> {
    var data := SigningInput(CompleteHeader(header, alg), payload);
    match alg.sign(data)
    case None => Err(SigningFailed)
    case Some(signature) => Ok(data + "." + EncodedPart(signature))
  }

  /** The text that is signed: both parts, serialized and encoded. */
  method SignedData(objHeader: Claims, payloadClaims: Claims) returns (token: Bytes)
    ensures token == SigningInput(objHeader, payloadClaims)
  {
    var headerText := JsonPrinter.SerializeText(Json.Obj(objHeader), false);
    var header := EncodePart(headerText);
    var payloadText := JsonPrinter.SerializeText(Json.Obj(payloadClaims), false);
    var payload := EncodePart(payloadText);
    token := header + "." + payload;
  }

  class Builder {
    var headerClaims: Claims
    var payloadClaims: Claims

    constructor ()
      ensures headerClaims == map[] && payloadClaims == map[]
    {
      headerClaims, payloadClaims := map[], map[];
    }

    method SetHeaderClaim(id: Bytes, c: Json.Value)
      modifies this
      ensures headerClaims == old(headerClaims)[id := c] && payloadClaims == old(payloadClaims)
    {
      headerClaims := headerClaims[id := c];
    }

    method SetPayloadClaim(id: Bytes, c: Json.Value)
      modifies this
      ensures payloadClaims == old(payloadClaims)[id := c] && headerClaims == old(headerClaims)
    {
      payloadClaims := payloadClaims[id := c];
    }

    /** The builder is not changed, so it can sign again. */
    method Sign(alg: Algorithm) returns (r: Result<Bytes, Failure>)
      ensures r == Signed(headerClaims, payloadClaims, alg)
      ensures r.Err? ==> r.error == SigningFailed
    {
      var objHeader := headerClaims;
      if "alg" !in headerClaims {
        objHeader := objHeader["alg" := Json.Str(alg.name)];
      }
      var token := SignedData(objHeader, payloadClaims);
      match alg.sign(token) {
        case None => r := Err(SigningFailed);
        case Some(signature) =>
          var encoded := EncodePart(signature);
          r := Ok(token + "." + encoded);
      }
    }
  }

  // ---- Decoding ----

  datatype DecodedJwt = DecodedJwt(
    token: Bytes,
    headerBase64: Bytes, payloadBase64: Bytes, signatureBase64: Bytes,
    header: Bytes, payload: Bytes, signature: Bytes,
    headerClaims: Claims, payloadClaims: Claims)

  /** `map_of_claims::parse_claims`: text behind the object is ignored. */
  function ParsedClaims(text: Bytes): Result<Claims, Failure> {
    match JsonGrammar.ParseValue(text, JsonParser.DEFAULT_MAX_DEPTHS)
    case Failed => Err(InvalidJson)
    case NonInteger => Err(UnmodelledNumber)
    case Parsed(v, _) => if v.Obj? then Ok(v.members) else Err(NoObject)
  }

  /** The part in front of the first dot, the part between it and the next, and the rest. */
  function SplitToken(token: Bytes): Option<(Bytes, Bytes, Bytes)> {
    match Find(token, ".", 0)
    case None => None
    case Some(first) =>
      match Find(token, ".", first + 1)
      case None => None
      case Some(second) => Some((token[..first], token[first + 1..second], token[second + 1..]))
  }

  /** What the constructor of `decoded_jwt` makes of a token, or the exception it throws. */
  function DecodedToken(token: Bytes): Result<DecodedJwt, Failure> {
    match SplitToken(token)
    case None => Err(InvalidToken)
    case Some((h, p, s)) => DecodedParts(token, h, p, s)
  }

  function DecodedParts(token: Bytes, h: Bytes, p: Bytes, s: Bytes): Result<DecodedJwt, Failure> {
    var header :- DecodedPart(h);
    var payload :- DecodedPart(p);
    var signature :- DecodedPart(s);
    var headerClaims :- ParsedClaims(header);
    var payloadClaims :- ParsedClaims(payload);
    Ok(DecodedJwt(token, h, p, s, header, payload, signature, headerClaims, payloadClaims))
  }

  method ParseClaims(text: Bytes) returns (r: Result<Claims, Failure>)
    ensures r == ParsedClaims(text)
    ensures match JsonGrammar.ParseValue(text, 100)
            case Parsed(Obj(claims), _) => r == Ok(claims)
            case Parsed(_, _) => r == Err(NoObject)
            case Failed => r == Err(InvalidJson)
            case NonInteger => r == Err(UnmodelledNumber)
  {
    var status, v, end := JsonParser.ParseText(text);
    match status {
      case Rejected => r := Err(InvalidJson);
      case Cut => r := Err(UnmodelledNumber);
      case Accepted => r := if v.Obj? then Ok(v.members) else Err(NoObject);
    }
  }

  method DecodeParts(token: Bytes, h: Bytes, p: Bytes, s: Bytes) returns (r: Result<DecodedJwt, Failure>)
    ensures r == DecodedParts(token, h, p, s)
  {
    var header :- DecodePart(h);
    var payload :- DecodePart(p);
    var signature :- DecodePart(s);
    var headerClaims :- ParseClaims(header);
    var payloadClaims :- ParseClaims(payload);
    r := Ok(DecodedJwt(token, h, p, s, header, payload, signature, headerClaims, payloadClaims));
  }

  method Split(token: Bytes) returns (r: Option<(Bytes, Bytes, Bytes)>)
    ensures r == SplitToken(token)
  {
    var hdrEnd := Find(token, ".", 0);
    if hdrEnd.None? {
      return None;
    }
    var payloadEnd := Find(token, ".", hdrEnd.value + 1);
    if payloadEnd.None? {
      return None;
    }
    r := Some((token[..hdrEnd.value], token[hdrEnd.value + 1..payloadEnd.value], token[payloadEnd.value + 1..]));
  }

  method Decode(token: Bytes) returns (r: Result<DecodedJwt, Failure>)
    ensures r == DecodedToken(token)
  {
    var parts := Split(token);
    match parts {
      case None => r := Err(InvalidToken);
      case Some((h, p, s)) => r := DecodeParts(token, h, p, s);
    }
  }
}
