/** The token module: `sign`, `verify`, `decode` and `isToken` over compact
    serializations (section 7.1 of RFC 7515) of JSON Web Tokens (RFC 7519). */
module Jwt {
  import opened Wrappers
  import opened JsValues
  import opened Segments

  /** What `decode` returns: `{ header, payload, errors }`. */
  datatype DecodeResult = DecodeResult(header: Json, payload: Json, errors: bool)

  /** The result `decode` gives for an empty token, and the shape of a total failure. */
  const Degraded: DecodeResult := DecodeResult(EmptyObject, EmptyObject, true)

  /** The library calls the module makes; `None` is a call that threw. */
  datatype Library = Library(
    parse: string -> Option<Json>,                   // JSON.parse(b64utoutf8(segment))
    b64uToHex: string -> Option<string>,             // b64utohex(secret)
    utf8ToHex: string -> Option<string>,             // utf8tohex(secret)
    jwsSign: (Json, Json, string) -> Option<string>, // jws.JWS.sign(null, header, payload, key)
    jwsVerify: (string, string) -> Option<bool>)     // jws.JWS.verify(jwt, key)

  /** The key-handling family of an algorithm: HMAC, or everything else. */
  datatype Family = Symmetric | Asymmetric

  /** The algorithm-name prefix of the HMAC family. */
  const SymmetricPrefix: string := "HS"

  // ---------------------------------------------------------------- decode

  /** `JSON.parse(b64utoutf8(split[i]))`: an index past the end of `split` is
      `undefined`, on which `b64utoutf8` throws. */
  function ParseSegment(split: seq<string>, i: nat, lib: Library): (r: Option<Json>)
    ensures i >= |split| ==> r.None?
    ensures i < |split| ==> r == lib.parse(split[i])
  {
    if i < |split| then lib.parse(split[i]) else None
  }

  /** The decoded token, field by field: each of the first two segments is
      parsed on its own, a failed one reads as `{}`, and `errors` reports a failure
      of either. */
  function Decoded(jwt: string, lib: Library): (r: DecodeResult)
    ensures jwt == "" ==> r == Degraded
    ensures !r.errors <==>
      && jwt != ""
      && |Split(jwt, '.')| >= 2
      && lib.parse(Split(jwt, '.')[0]).Some?
      && lib.parse(Split(jwt, '.')[1]).Some?
    ensures !r.errors ==>
      && lib.parse(Split(jwt, '.')[0]) == Some(r.header)
      && lib.parse(Split(jwt, '.')[1]) == Some(r.payload)
  {
    if jwt == "" then Degraded
    else
      var split := Split(jwt, '.');
      var header, payload := ParseSegment(split, 0, lib), ParseSegment(split, 1, lib);
      DecodeResult(header.GetOr(EmptyObject), payload.GetOr(EmptyObject), header.None? || payload.None?)
  }

  /** `decode(jwt)`: fills a result record from two independent try/catch blocks. */
  method Decode(jwt: string, lib: Library) returns (result: DecodeResult)
    ensures jwt == "" ==> result == Degraded
    ensures result == Decoded(jwt, lib)
  {
    result := DecodeResult(EmptyObject, EmptyObject, false);
    if jwt == "" {
      result := result.(errors := true);
      return;
    }
    var split := Split(jwt, '.');
    match ParseSegment(split, 0, lib) {
      case Some(header) =>
        result := result.(header := header);
      case None =>
        result := result.(header := EmptyObject, errors := true);
    }
    match ParseSegment(split, 1, lib) {
      case Some(payload) =>
        result := result.(payload := payload);
      case None =>
        result := result.(payload := EmptyObject, errors := true);
    }
  }

  // ---------------------------------------------------------------- isToken

  /** `header.typ === 'JWT'`, reading a property of null as `undefined`. */
  predicate HasJwtTyp(header: Json)
    ensures HasJwtTyp(header) <==> header.JObject? && "typ" in header.fields && header.fields["typ"] == JString("JWT")
  {
    Property(header, "typ") == Some(JString("JWT"))
  }

  /** `header.typ !== 'JWT'` exactly as JavaScript evaluates it: it throws when
      the header is null. */
  function TypRejectsAsWritten(header: Json): (r: Result<bool, JsError>)
    ensures r.Failure? <==> header == JNull
    ensures r.Success? ==> (r.value <==> Property(header, "typ") != Some(JString("JWT")))
  {
    match Get(header, "typ")
    case Failure(e) => Failure(e)
    case Success(typ) => Success(typ != Some(JString("JWT")))
  }

  /** What `isToken(jwt, checkTypClaim)` accepts: the decode succeeded, the `typ`
      claim is "JWT" when asked for, and every dot-separated segment (empty ones
      included) is relaxed base64url. */
  predicate StructurallyValid(jwt: string, checkTypClaim: bool, lib: Library)
    ensures StructurallyValid(jwt, checkTypClaim, lib) ==> jwt != "" && |Split(jwt, '.')| >= 2
  {
    var decoded := Decoded(jwt, lib);
    && !decoded.errors
    && (checkTypClaim ==> HasJwtTyp(decoded.header))
    && AllRelaxedBase64Url(Split(jwt, '.'))
  }

  /** `isToken(jwt, checkTypClaim)`: the accumulator of its `forEach` ends up as the
      conjunction of the base64url check over all segments. */
  method IsToken(jwt: string, checkTypClaim: bool, lib: Library) returns (valid: bool)
    ensures valid <==> StructurallyValid(jwt, checkTypClaim, lib)
  {
    var decoded := Decode(jwt, lib);
    if decoded.errors {
      return false;
    }
    if checkTypClaim && !HasJwtTyp(decoded.header) {
      return false;
    }
    var split := Split(jwt, '.');
    valid := true;
    for i := 0 to |split|
      invariant valid <==> forall j :: 0 <= j < i ==> IsRelaxedBase64Url(split[j])
    {
      valid := valid && IsRelaxedBase64Url(split[i]);
    }
  }

  // ---------------------------------------------------------------- key derivation

  /** `alg.indexOf('HS') === 0`, and so the family: a string tests its prefix, an
      array whether its first element is "HS", and any other value has no
      `indexOf` to call. */
  function FamilyOf(alg: Json): (r: Result<Family, JsError>)
    ensures r.Failure? ==> r.error == TypeError
    ensures r.Failure? <==> !(alg.JString? || alg.JArray?)
  {
    match alg
    case JString(s) => Success(if IndexOf(s, SymmetricPrefix) == 0 then Symmetric else Asymmetric)
    case JArray(items) =>
      Success(if |items| > 0 && items[0] == JString(SymmetricPrefix) then Symmetric else Asymmetric)
    case _ => Failure(TypeError)
  }

  /** The key handed to the signature primitive, one rule for `sign` and `verify`:
      an HMAC secret is turned into hex (from base64url when `base64Secret`, from
      UTF-8 otherwise); any other key goes through unchanged. */
  function DeriveKey(alg: Json, key: string, base64Secret: bool, lib: Library): (r: Result<string, JsError>)
    ensures FamilyOf(alg) == Success(Asymmetric) ==> r == Success(key)
    ensures r.Failure? ==> FamilyOf(alg).Failure? || FamilyOf(alg) == Success(Symmetric)
  {
    match FamilyOf(alg)
    case Failure(e) => Failure(e)
    case Success(Asymmetric) => Success(key)
    case Success(Symmetric) =>
      match (if base64Secret then lib.b64uToHex(key) else lib.utf8ToHex(key))
      case Some(hex) => Success(hex)
      case None => Failure(LibraryError)
  }

  /** The `alg` claim of a header when it is truthy (`!header.alg` is false). */
  function Alg(header: Json): (r: Option<Json>)
    ensures r.Some? ==> Truthy(r.value) && Property(header, "alg") == r
    ensures r.None? ==> Property(header, "alg").None? || !Truthy(Property(header, "alg").value)
  {
    match Property(header, "alg")
    case Some(alg) => if Truthy(alg) then Some(alg) else None
    case None => None
  }

  // ---------------------------------------------------------------- sign

  /** `sign(header, payload, key, base64Secret)`: strict, so every failure is an
      exception; a missing or falsy `alg` is reported before the primitive runs. */
  function Sign(header: Json, payload: Json, key: string, base64Secret: bool, lib: Library): (r: Result<string, JsError>)
    ensures header == JNull ==> r == Failure(TypeError)
    ensures r == Failure(MissingAlgClaim) <==> header != JNull && Alg(header).None?
    ensures r.Success? ==>
      && Alg(header).Some?
      && DeriveKey(Alg(header).value, key, base64Secret, lib).Success?
      && lib.jwsSign(header, payload, DeriveKey(Alg(header).value, key, base64Secret, lib).value) == Some(r.value)
    ensures header != JNull && Alg(header).Some? && DeriveKey(Alg(header).value, key, base64Secret, lib).Failure? ==>
      r == Failure(DeriveKey(Alg(header).value, key, base64Secret, lib).error)
    ensures header != JNull && Alg(header).Some? && FamilyOf(Alg(header).value).Failure? ==> r == Failure(TypeError)
    ensures header != JNull && Alg(header).Some? && DeriveKey(Alg(header).value, key, base64Secret, lib).Success? ==>
      r == match lib.jwsSign(header, payload, DeriveKey(Alg(header).value, key, base64Secret, lib).value)
           case Some(token) => Success(token)
           case None => Failure(LibraryError)
  {
    match Get(header, "alg")
    case Failure(e) => Failure(e)
    case Success(_) =>
      match Alg(header)
      case None => Failure(MissingAlgClaim)
      case Some(alg) =>
        match DeriveKey(alg, key, base64Secret, lib)
        case Failure(e) => Failure(e)
        case Success(k) =>
          match lib.jwsSign(header, payload, k)
          case Some(token) => Success(token)
          case None => Failure(LibraryError)
  }

  // ---------------------------------------------------------------- verify

  /** The body of `verify`'s try block (lines after the `alg` check): any
      exception inside it, including a non-callable `indexOf`, is `false`. */
  function VerifyWithAlg(jwt: string, alg: Option<Json>, key: string, base64Secret: bool, lib: Library): (ok: bool)
    ensures ok <==>
      && alg.Some?
      && DeriveKey(alg.value, key, base64Secret, lib).Success?
      && lib.jwsVerify(jwt, DeriveKey(alg.value, key, base64Secret, lib).value) == Some(true)
  {
    match alg
    case None => false
    case Some(a) =>
      match DeriveKey(a, key, base64Secret, lib)
      case Failure(_) => false
      case Success(k) =>
        match lib.jwsVerify(jwt, k)
        case Some(verified) => verified
        case None => false
  }

  /** `verify(jwt, key, base64Secret)` as written: `decoded.header.alg` is read
      outside the try block, so a header that decodes to null throws. */
  function VerifyAsWritten(jwt: string, key: string, base64Secret: bool, lib: Library): (r: Result<bool, JsError>)
    ensures r.Failure? <==> StructurallyValid(jwt, false, lib) && Decoded(jwt, lib).header == JNull
    ensures r.Failure? ==> r.error == TypeError
  {
    if !StructurallyValid(jwt, false, lib) then Success(false)
    else
      var header := Decoded(jwt, lib).header;
      match Get(header, "alg")
      case Failure(e) => Failure(e)
      case Success(_) => Success(VerifyWithAlg(jwt, Alg(header), key, base64Secret, lib))
  }

  /** `verify(jwt, key, base64Secret)`, total: structural rejection first, then a
      missing `alg`, then the primitive, whose exceptions count as `false`. */
  function Verify(jwt: string, key: string, base64Secret: bool, lib: Library): (ok: bool)
    ensures ok <==>
      && StructurallyValid(jwt, false, lib)
      && Alg(Decoded(jwt, lib).header).Some?
      && DeriveKey(Alg(Decoded(jwt, lib).header).value, key, base64Secret, lib).Success?
      && lib.jwsVerify(jwt, DeriveKey(Alg(Decoded(jwt, lib).header).value, key, base64Secret, lib).value) == Some(true)
  {
    if !StructurallyValid(jwt, false, lib) then false
    else VerifyWithAlg(jwt, Alg(Decoded(jwt, lib).header), key, base64Secret, lib)
  }
}
