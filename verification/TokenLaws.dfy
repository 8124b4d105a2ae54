/** What signing and decoding are to each other. */
module TokenLaws {
  import opened ByteStrings
  import opened Token
  import B = Base64
  import BL = Base64Laws
  import Json
  import JsonLaws
  import JsonGrammar

  // ---- Dots ----

  predicate NoDot(s: Bytes) {
    forall i :: 0 <= i < |s| ==> s[i] != '.'
  }

  function Dots(s: Bytes): nat {
    if s == [] then 0 else (if s[0] == '.' then 1 else 0) + Dots(s[1..])
  }

  lemma {:induction false} DotsOfConcat(s: Bytes, t: Bytes)
    ensures Dots(s + t) == Dots(s) + Dots(t)
  {
    if s == [] {
      assert s + t == t;
    } else {
      assert (s + t)[1..] == s[1..] + t;
      DotsOfConcat(s[1..], t);
    }
  }

  lemma {:induction false} NoDotsCounted(s: Bytes)
    ensures NoDot(s) <==> Dots(s) == 0
  {
    if s != [] {
      NoDotsCounted(s[1..]);
      assert forall i :: 1 <= i < |s| ==> s[i] == s[1..][i - 1];
    }
  }

  /** Searching for a dot behind a stretch without one finds the one that ends the stretch. */
  lemma FindsDot(before: Bytes, part: Bytes, after: Bytes)
    requires NoDot(part)
    ensures Find(before + part + "." + after, ".", |before|) == Some(|before| + |part|)
  {
    var s := before + part + "." + after;
    forall i: nat | |before| <= i < |before| + |part| ensures !OccursAt(s, ".", i) {
      assert s[i] == part[i - |before|];
      assert s[i..i + 1][0] == s[i];
    }
    assert OccursAt(s, ".", |before| + |part|);
  }

  lemma SplitOfJoined(h: Bytes, p: Bytes, s: Bytes)
    requires NoDot(h) && NoDot(p)
    ensures SplitToken(h + "." + p + "." + s) == Some((h, p, s))
  {
    hide Find, OccursAt;
    var token := h + "." + p + "." + s;
    assert token == [] + h + "." + (p + "." + s);
    FindsDot([], h, p + "." + s);
    FindsDot(h + ".", p, s);
    assert token[..|h|] == h;
    assert token[|h| + 1..|h| + 1 + |p|] == p;
    assert token[|h| + 1 + |p| + 1..] == s;
  }

  lemma DotsOccur(s: Bytes, i: nat)
    ensures OccursAt(s, ".", i) <==> i < |s| && s[i] == '.'
  {
    if i < |s| {
      assert s[i..i + 1] == [s[i]];
    }
  }

  lemma CutsJoin(s: Bytes, i: nat, j: nat)
    requires i < j < |s| && s[i] == '.' && s[j] == '.'
    ensures s == s[..i] + "." + s[i + 1..j] + "." + s[j + 1..]
  {
  }

  lemma SplitRejoins(token: Bytes)
    requires SplitToken(token).Some?
    ensures var (h, p, s) := SplitToken(token).value;
      token == h + "." + p + "." + s && NoDot(h) && NoDot(p)
  {
    hide OccursAt;
    var first := Find(token, ".", 0).value;
    var second := Find(token, ".", first + 1).value;
    forall i: nat ensures OccursAt(token, ".", i) <==> i < |token| && token[i] == '.' {
      DotsOccur(token, i);
    }
    CutsJoin(token, first, second);
  }

  // ---- Parts ----

  lemma PartRoundTrip(data: Bytes)
    ensures DecodedPart(EncodedPart(data)) == Ok(data)
    ensures NoDot(EncodedPart(data))
  {
    B.AlphabetsAreWellFormed();
    BL.PadTrimEncode(data, B.BASE64URL);
    BL.EncodedLettersFit(data, B.BASE64URL);
    LettersHaveNoDot(EncodedPart(data));
  }

  lemma LettersHaveNoDot(s: Bytes)
    requires B.InAlphabet(s, B.BASE64URL.data)
    ensures NoDot(s)
  {
    B.AlphabetsAreWellFormed();
  }

  /** Only text without dots decodes. */
  lemma DecodablePartHasNoDot(part: Bytes)
    requires DecodedPart(part).Ok?
    ensures NoDot(part)
  {
    B.AlphabetsAreWellFormed();
    var padded := B.Padded(part, B.BASE64URL);
    BL.DecodeAcceptsShapes(padded, B.BASE64URL);
    var body, k :| BL.IsShape(padded, body, k, B.BASE64URL);
    LettersHaveNoDot(body);
    FillsHaveNoDot(k);
    forall i | 0 <= i < |part| ensures part[i] != '.' {
      assert padded[i] == part[i];
      assert i < |body| ==> padded[i] == body[i];
      assert i >= |body| ==> padded[i] == B.Repeat(B.BASE64URL.fill, k)[i - |body|];
    }
  }

  lemma {:induction false} FillsHaveNoDot(k: nat)
    ensures NoDot(B.Repeat(B.BASE64URL.fill, k))
  {
    if k > 0 {
      FillsHaveNoDot(k - 1);
      B.AlphabetsAreWellFormed();
    }
  }

  /** A token that decodes has exactly two dots, and its parts rejoin to the token. */
  lemma DecodableTokens(token: Bytes)
    requires DecodedToken(token).Ok?
    ensures var d := DecodedToken(token).value;
      && token == d.headerBase64 + "." + d.payloadBase64 + "." + d.signatureBase64
      && d.token == token
      && Dots(token) == 2
  {
    SplitRejoins(token);
    var (h, p, s) := SplitToken(token).value;
    DecodablePartHasNoDot(s);
    DotsOfJoined(h, p, s);
  }

  /** `part` stands for `data`: padded, it is the base64url text of it. */
  predicate StandsFor(part: Bytes, data: Bytes) {
    B.Decoded(B.Padded(part, B.BASE64URL), B.BASE64URL) == Ok(data)
  }

  /** `text` starts with the JSON object `claims`. */
  ghost predicate HasClaims(text: Bytes, claims: Claims) {
    exists rest :: JsonGrammar.ParseValue(text, 100) == JsonGrammar.Parsed(Json.Obj(claims), rest)
  }

  /** A token of three parts, base64url without dots, the first two of JSON objects, and what it is decoded to. */
  ghost predicate IsDecoding(token: Bytes, d: DecodedJwt) {
    && token == d.token == d.headerBase64 + "." + d.payloadBase64 + "." + d.signatureBase64
    && StandsFor(d.headerBase64, d.header)
    && StandsFor(d.payloadBase64, d.payload)
    && StandsFor(d.signatureBase64, d.signature)
    && HasClaims(d.header, d.headerClaims)
    && HasClaims(d.payload, d.payloadClaims)
  }

  lemma PartsExactly(token: Bytes, h: Bytes, p: Bytes, s: Bytes, d: DecodedJwt)
    requires token == h + "." + p + "." + s
    ensures DecodedParts(token, h, p, s) == Ok(d)
      <==> IsDecoding(token, d) && d.headerBase64 == h && d.payloadBase64 == p && d.signatureBase64 == s
  {
    hide B.Decoded, B.Padded, JsonGrammar.ParseValue;
    if DecodedParts(token, h, p, s) == Ok(d) {
      ClaimsExactly(d.header, d.headerClaims);
      ClaimsExactly(d.payload, d.payloadClaims);
    }
  }

  lemma ClaimsExactly(text: Bytes, claims: Claims)
    ensures ParsedClaims(text) == Ok(claims) <==> HasClaims(text, claims)
  {
    hide JsonGrammar.ParseValue;
  }

  /** Exactly these tokens decode, and to exactly that. */
  lemma DecodesExactly(token: Bytes, d: DecodedJwt)
    ensures DecodedToken(token) == Ok(d) <==> IsDecoding(token, d)
  {
    hide DecodedPart, ParsedClaims, DecodedParts, HasClaims, B.Decoded, B.Padded;
    if SplitToken(token).Some? {
      SplitRejoins(token);
      var (h, p, s) := SplitToken(token).value;
      PartsExactly(token, h, p, s, d);
    }
    if IsDecoding(token, d) {
      PartIsDecodable(d.headerBase64, d.header);
      PartIsDecodable(d.payloadBase64, d.payload);
      SplitOfJoined(d.headerBase64, d.payloadBase64, d.signatureBase64);
    }
  }

  lemma PartIsDecodable(part: Bytes, data: Bytes)
    requires StandsFor(part, data)
    ensures NoDot(part)
  {
    hide B.Decoded, B.Padded, NoDot;
    DecodablePartHasNoDot(part);
  }

  lemma OneDot()
    ensures Dots(".") == 1
  {
  }

  /** Where there are no two dots to cut at, there is at most one. */
  lemma FewDots(token: Bytes)
    requires SplitToken(token).None?
    ensures Dots(token) < 2
  {
    hide Dots;
    assert Dots(".") == 1 by {
      OneDot();
    }
    forall i | 0 <= i < |token| && token[i] == '.' ensures OccursAt(token, ".", i) {
      assert token[i..i + 1] == ".";
    }
    match Find(token, ".", 0)
    case None => NoDotsCounted(token);
    case Some(k) =>
      assert token == token[..k] + token[k..k + 1] + token[k + 1..];
      DotsOfConcat(token[..k] + ".", token[k + 1..]);
      DotsOfConcat(token[..k], ".");
      NoDotsCounted(token[..k]);
      NoDotsCounted(token[k + 1..]);
  }

  lemma DotsOfParts(h: Bytes, p: Bytes, s: Bytes)
    ensures Dots(h + "." + p + "." + s) == Dots(h) + Dots(p) + Dots(s) + 2
  {
    DotsOfConcat(h + "." + p + ".", s);
    DotsOfConcat(h + "." + p, ".");
    DotsOfConcat(h + ".", p);
    DotsOfConcat(h, ".");
  }

  lemma PartsAreSomeToken(token: Bytes, h: Bytes, p: Bytes, s: Bytes)
    ensures DecodedParts(token, h, p, s) != Err(InvalidToken)
  {
    hide B.Decoded, B.Padded, JsonGrammar.ParseValue;
  }

  /** A text is refused as no token exactly if it has fewer than two dots. */
  lemma NoTokenExactly(token: Bytes)
    ensures DecodedToken(token) == Err(InvalidToken) <==> Dots(token) < 2
  {
    hide DecodedParts, SplitToken, Dots;
    if SplitToken(token).Some? {
      SplitRejoins(token);
      var (h, p, s) := SplitToken(token).value;
      DotsOfParts(h, p, s);
      PartsAreSomeToken(token, h, p, s);
    } else {
      FewDots(token);
    }
  }

  /** Of several reasons to refuse a token, the first part that is no base64url comes first, then the first claims. */
  lemma FirstException(h: Bytes, p: Bytes, s: Bytes)
    requires NoDot(h) && NoDot(p)
    ensures var r := DecodedToken(h + "." + p + "." + s);
      && (DecodedPart(h).Err? ==> r == Err(DecodedPart(h).error))
      && (DecodedPart(h).Ok? && DecodedPart(p).Err? ==> r == Err(DecodedPart(p).error))
      && (DecodedPart(h).Ok? && DecodedPart(p).Ok? && DecodedPart(s).Err? ==> r == Err(DecodedPart(s).error))
      && (DecodedPart(h).Ok? && DecodedPart(p).Ok? && DecodedPart(s).Ok? ==>
            var header, payload := ParsedClaims(DecodedPart(h).value), ParsedClaims(DecodedPart(p).value);
            && (header.Err? ==> r == Err(header.error))
            && (header.Ok? && payload.Err? ==> r == Err(payload.error)))
  {
    hide DecodedPart, ParsedClaims;
    SplitOfJoined(h, p, s);
  }

  lemma DotsOfJoined(h: Bytes, p: Bytes, s: Bytes)
    requires NoDot(h) && NoDot(p) && NoDot(s)
    ensures Dots(h + "." + p + "." + s) == 2
  {
    NoDotsCounted(h);
    NoDotsCounted(p);
    NoDotsCounted(s);
    DotsOfParts(h, p, s);
  }

  // ---- Claims ----

  /** Claims come back from their text unless arrays are nested too deeply in them; then the text is no valid JSON. */
  lemma ClaimsRoundTrip(claims: Claims)
    ensures ParsedClaims(Json.Serialized(Json.Obj(claims), false))
         == if JsonLaws.Fits(Json.Obj(claims), 100) then Ok(claims) else Err(InvalidJson)
  {
    var text := Json.Serialized(Json.Obj(claims), false);
    JsonLaws.ValueReads(Json.Obj(claims), Json.COMPACT, 100, []);
    assert text + [] == text;
  }

  // ---- Tokens ----

  ghost predicate ClaimsFit(claims: Claims) {
    JsonLaws.Fits(Json.Obj(claims), 100)
  }

  lemma PartsDecode(token: Bytes, header: Claims, payload: Claims, signature: Bytes)
    ensures var headerText := Json.Serialized(Json.Obj(header), false);
      var payloadText := Json.Serialized(Json.Obj(payload), false);
      DecodedParts(token, EncodedPart(headerText), EncodedPart(payloadText), EncodedPart(signature))
      == if ClaimsFit(header) && ClaimsFit(payload) then
           Ok(DecodedJwt(token, EncodedPart(headerText), EncodedPart(payloadText), EncodedPart(signature),
                         headerText, payloadText, signature, header, payload))
         else Err(InvalidJson)
  {
    PartRoundTrip(Json.Serialized(Json.Obj(header), false));
    PartRoundTrip(Json.Serialized(Json.Obj(payload), false));
    PartRoundTrip(signature);
    ClaimsRoundTrip(header);
    ClaimsRoundTrip(payload);
  }

  /** A decoded token has these claims, and the algorithm's signature of all that is in front of the second dot. */
  predicate GivesBack(d: DecodedJwt, token: Bytes, header: Claims, payload: Claims, alg: Algorithm) {
    && d.token == token
    && d.headerClaims == header
    && d.payloadClaims == payload
    && d.headerBase64 + "." + d.payloadBase64 == SigningInput(header, payload)
    && alg.sign(d.headerBase64 + "." + d.payloadBase64) == Some(d.signature)
  }

  /**
   * Decoding a signed token gives back the header with its algorithm filled in, the payload and the signature,
   * unless arrays are nested too deeply in the claims; and what was signed is the token in front of its second dot.
   */
  lemma SignThenDecode(header: Claims, payload: Claims, alg: Algorithm)
    requires Signed(header, payload, alg).Ok?
    ensures var token := Signed(header, payload, alg).value;
      var complete := if "alg" in header then header else header["alg" := Json.Str(alg.name)];
      if ClaimsFit(complete) && ClaimsFit(payload) then
        DecodedToken(token).Ok? && GivesBack(DecodedToken(token).value, token, complete, payload, alg)
      else DecodedToken(token) == Err(InvalidJson)
  {
    var token := Signed(header, payload, alg).value;
    var complete := CompleteHeader(header, alg);
    var h := EncodedPart(Json.Serialized(Json.Obj(complete), false));
    var p := EncodedPart(Json.Serialized(Json.Obj(payload), false));
    var signature := alg.sign(SigningInput(complete, payload)).value;
    PartRoundTrip(Json.Serialized(Json.Obj(complete), false));
    PartRoundTrip(Json.Serialized(Json.Obj(payload), false));
    SplitOfJoined(h, p, EncodedPart(signature));
    PartsDecode(token, complete, payload, signature);
  }

  lemma ParsedClaimsFit(text: Bytes)
    requires ParsedClaims(text).Ok?
    ensures ClaimsFit(ParsedClaims(text).value)
  {
    JsonLaws.ParsedFits(text, 100);
  }

  lemma DecodedClaimsFit(token: Bytes)
    requires DecodedToken(token).Ok?
    ensures ClaimsFit(DecodedToken(token).value.headerClaims) && ClaimsFit(DecodedToken(token).value.payloadClaims)
  {
    hide DecodedPart, ParsedClaims, SplitToken, ClaimsFit;
    var d := DecodedToken(token).value;
    ParsedClaimsFit(d.header);
    ParsedClaimsFit(d.payload);
  }

  lemma CompleteHeaderFits(header: Claims, alg: Algorithm)
    requires ClaimsFit(header)
    ensures ClaimsFit(CompleteHeader(header, alg))
  {
  }

  /** The claims of a token that was decoded can be signed again, and come back from the new token. */
  lemma DecodeSignDecode(token: Bytes, alg: Algorithm)
    requires DecodedToken(token).Ok?
    requires Signed(DecodedToken(token).value.headerClaims, DecodedToken(token).value.payloadClaims, alg).Ok?
    ensures var d := DecodedToken(token).value;
      var again := DecodedToken(Signed(d.headerClaims, d.payloadClaims, alg).value);
      && again.Ok?
      && again.value.headerClaims == CompleteHeader(d.headerClaims, alg)
      && again.value.payloadClaims == d.payloadClaims
  {
    hide DecodedToken, SigningInput, Signed, ClaimsFit;
    var d := DecodedToken(token).value;
    DecodedClaimsFit(token);
    CompleteHeaderFits(d.headerClaims, alg);
    SignThenDecode(d.headerClaims, d.payloadClaims, alg);
  }
}
