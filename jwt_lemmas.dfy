/** What `decode`, `isToken`, `sign` and `verify` promise, proved about the model. */
module JwtLemmas {
  import opened Wrappers
  import opened JsValues
  import opened Segments
  import opened Jwt

  // ---------------------------------------------------------------- decode

  /** A token of two or more segments decodes its first two segments
      independently and ignores the rest: each field is its parsed value or `{}`,
      and `errors` is set exactly when one of the two failed. */
  lemma DecodeCompact(segments: seq<string>, lib: Library)
    requires |segments| >= 2
    requires forall i :: 0 <= i < |segments| ==> '.' !in segments[i]
    ensures Decoded(Join(segments, '.'), lib) ==
      DecodeResult(
        lib.parse(segments[0]).GetOr(EmptyObject),
        lib.parse(segments[1]).GetOr(EmptyObject),
        lib.parse(segments[0]).None? || lib.parse(segments[1]).None?)
  {
    SplitJoin(segments, '.');
    assert Join(segments, '.') == segments[0] + ['.'] + Join(segments[1..], '.');
  }

  /** A non-empty token without a dot has no payload segment: the payload is `{}`
      and `errors` is set, whatever the header does. */
  lemma DecodeSingleSegment(segment: string, lib: Library)
    requires segment != "" && '.' !in segment
    ensures Decoded(segment, lib) ==
      DecodeResult(lib.parse(segment).GetOr(EmptyObject), EmptyObject, true)
  {
    SplitJoin([segment], '.');
  }

  // ---------------------------------------------------------------- isToken

  /** A structurally valid token always has at least two segments, and stays
      valid when cut to its first two segments, with or without a trailing dot:
      the signature segment is optional. */
  lemma SignatureOptional(jwt: string, checkTypClaim: bool, lib: Library)
    requires StructurallyValid(jwt, checkTypClaim, lib)
    ensures |Split(jwt, '.')| >= 2
    ensures StructurallyValid(Split(jwt, '.')[0] + "." + Split(jwt, '.')[1], checkTypClaim, lib)
    ensures StructurallyValid(Split(jwt, '.')[0] + "." + Split(jwt, '.')[1] + ".", checkTypClaim, lib)
  {
    var split := Split(jwt, '.');
    if |split| == 1 {
      SplitJoin(split, '.');
      DecodeSingleSegment(jwt, lib);
      assert false;
    }
    DecodeCompact(split, lib);
    var two, three := [split[0], split[1]], [split[0], split[1], ""];
    JoinThree(split[0], split[1], "", '.');
    assert split[0] + "." + split[1] + "." + "" == split[0] + "." + split[1] + ".";
    SplitJoin(two, '.');
    SplitJoin(three, '.');
    DecodeCompact(two, lib);
    DecodeCompact(three, lib);
  }

  /** A character outside the base64url alphabet anywhere but at a dot (a `+`,
      `/` or `=` of standard base64, say) makes the token invalid, and so makes
      `verify` return false. */
  lemma NonBase64UrlCharRejected(jwt: string, checkTypClaim: bool, key: string, base64Secret: bool, lib: Library, i: nat)
    requires i < |jwt| && jwt[i] != '.' && !IsBase64UrlChar(jwt[i])
    ensures !StructurallyValid(jwt, checkTypClaim, lib)
    ensures !Verify(jwt, key, base64Secret, lib)
  {
    CharInSomePiece(jwt, '.', i);
    var j :| 0 <= j < |Split(jwt, '.')| && jwt[i] in Split(jwt, '.')[j];
    assert !IsRelaxedBase64Url(Split(jwt, '.')[j]);
  }

  /** The permissive edge case "..": its three segments are empty and pass the
      base64url check, so it is a token exactly when the empty segment parses. */
  lemma DotsOnlyToken(checkTypClaim: bool, lib: Library)
    ensures StructurallyValid("..", checkTypClaim, lib) <==>
      lib.parse("").Some? && (checkTypClaim ==> HasJwtTyp(lib.parse("").value))
  {
    var empties := ["", "", ""];
    assert Join(empties, '.') == "..";
    SplitJoin(empties, '.');
    DecodeCompact(empties, lib);
  }

  // ---------------------------------------------------------------- key derivation

  /** For a string `alg` the family test is the prefix "HS": such an HMAC secret is
      converted (base64url or UTF-8 to hex), any other key is passed unchanged. */
  lemma DeriveKeyForString(alg: string, key: string, base64Secret: bool, lib: Library)
    ensures DeriveKey(JString(alg), key, base64Secret, lib) ==
      if |alg| >= 2 && alg[..2] == "HS" then
        match (if base64Secret then lib.b64uToHex(key) else lib.utf8ToHex(key))
        case Some(hex) => Success(hex)
        case None => Failure(LibraryError)
      else Success(key)
  {
    IndexOfZeroIsPrefix(alg, SymmetricPrefix);
  }

  // ---------------------------------------------------------------- verify

  /** `verify` rejects a non-token, or a token whose header has no truthy `alg`,
      without consulting the key conversions or the verification primitive: the
      answer is the same under any library with the same parser. */
  lemma VerifyRejectsBeforeCrypto(jwt: string, key: string, base64Secret: bool, lib: Library, other: Library)
    requires other.parse == lib.parse
    requires !StructurallyValid(jwt, false, lib) || Alg(Decoded(jwt, lib).header).None?
    ensures !Verify(jwt, key, base64Secret, lib)
    ensures Verify(jwt, key, base64Secret, lib) == Verify(jwt, key, base64Secret, other)
  {
    assert Decoded(jwt, other) == Decoded(jwt, lib);
  }

  /** Once `verify` reaches the primitive it reports the primitive's answer, and a
      primitive that throws gives false. */
  lemma VerifyReportsPrimitive(jwt: string, key: string, base64Secret: bool, lib: Library, alg: Json, derived: string)
    requires StructurallyValid(jwt, false, lib)
    requires Alg(Decoded(jwt, lib).header) == Some(alg)
    requires DeriveKey(alg, key, base64Secret, lib) == Success(derived)
    ensures Verify(jwt, key, base64Secret, lib) ==
      match lib.jwsVerify(jwt, derived)
      case Some(verified) => verified
      case None => false
  {
  }

  // ---------------------------------------------------------------- sign and verify

  /** `sign` and `verify` derive the key by one rule: when a token's decoded `alg`
      is the one `sign` was given, `verify` checks it with exactly the key the
      signature was made with. */
  lemma SignAndVerifyShareKey(header: Json, payload: Json, key: string, base64Secret: bool, lib: Library, jwt: string)
    requires Sign(header, payload, key, base64Secret, lib).Success?
    requires StructurallyValid(jwt, false, lib)
    requires Property(Decoded(jwt, lib).header, "alg") == Property(header, "alg")
    ensures exists derived ::
      && lib.jwsSign(header, payload, derived) == Some(Sign(header, payload, key, base64Secret, lib).value)
      && Verify(jwt, key, base64Secret, lib) == (lib.jwsVerify(jwt, derived) == Some(true))
  {
    var derived := DeriveKey(Alg(header).value, key, base64Secret, lib).value;
    assert Alg(Decoded(jwt, lib).header) == Alg(header);
    assert lib.jwsSign(header, payload, derived) == Some(Sign(header, payload, key, base64Secret, lib).value);
  }

  /** Round trip: when the primitive writes the header and payload as the first
      two base64url segments and accepts what it signed under the same key,
      `decode` gives back the header and payload and `verify` accepts the token. */
  lemma SignThenVerify(header: Json, payload: Json, key: string, base64Secret: bool, lib: Library, h: string, p: string, s: string)
    requires Sign(header, payload, key, base64Secret, lib) == Success(h + "." + p + "." + s)
    requires IsRelaxedBase64Url(h) && IsRelaxedBase64Url(p) && IsRelaxedBase64Url(s)
    requires lib.parse(h) == Some(header) && lib.parse(p) == Some(payload)
    requires forall k :: lib.jwsSign(header, payload, k) == Some(h + "." + p + "." + s) ==>
      lib.jwsVerify(h + "." + p + "." + s, k) == Some(true)
    ensures Decoded(h + "." + p + "." + s, lib) == DecodeResult(header, payload, false)
    ensures Verify(h + "." + p + "." + s, key, base64Secret, lib)
  {
    var segments, jwt := [h, p, s], h + "." + p + "." + s;
    assert !IsBase64UrlChar('.');
    JoinThree(h, p, s, '.');
    SplitJoin(segments, '.');
    DecodeCompact(segments, lib);
    assert StructurallyValid(jwt, false, lib);
    SignAndVerifyShareKey(header, payload, key, base64Secret, lib, jwt);
  }

  // ---------------------------------------------------------------- findings

  /** "bnVsbA" is the base64url text of the JSON document `null`. */
  const NullSegment: string := "bnVsbA"
  const NullHeaderToken: string := NullSegment + "." + NullSegment

  /** As written, `verify` throws a TypeError on a well-formed token whose header
      is `null`; the corrected `Verify` returns false. */
  lemma NullHeaderMakesVerifyThrow(key: string, base64Secret: bool, lib: Library)
    requires lib.parse(NullSegment) == Some(JNull)
    ensures StructurallyValid(NullHeaderToken, false, lib)
    ensures VerifyAsWritten(NullHeaderToken, key, base64Secret, lib) == Failure(TypeError)
    ensures !Verify(NullHeaderToken, key, base64Secret, lib)
  {
    NullHeaderDecodes(NullSegment, lib);
  }

  /** A two-segment token whose segments both decode to null passes the
      structural check with a null header. */
  lemma NullHeaderDecodes(segment: string, lib: Library)
    requires IsRelaxedBase64Url(segment) && lib.parse(segment) == Some(JNull)
    ensures Decoded(segment + "." + segment, lib) == DecodeResult(JNull, JNull, false)
    ensures StructurallyValid(segment + "." + segment, false, lib)
  {
    var segments := [segment, segment];
    assert !IsBase64UrlChar('.');
    JoinThree(segment, segment, "", '.');
    SplitJoin(segments, '.');
    DecodeCompact(segments, lib);
  }

  /** The corrected `Verify` gives the as-written answer wherever that one
      returns, and false exactly where it throws. */
  lemma VerifyCatchesAsWritten(jwt: string, key: string, base64Secret: bool, lib: Library)
    ensures match VerifyAsWritten(jwt, key, base64Secret, lib)
      case Success(verified) => Verify(jwt, key, base64Secret, lib) == verified
      case Failure(_) => !Verify(jwt, key, base64Secret, lib)
  {
  }

  /** As written, `isToken(jwt, true)` throws a TypeError on a token whose header
      decodes to `null`; the corrected check rejects it. */
  lemma NullHeaderMakesTypCheckThrow(lib: Library)
    requires lib.parse(NullSegment) == Some(JNull)
    ensures !Decoded(NullHeaderToken, lib).errors && Decoded(NullHeaderToken, lib).header == JNull
    ensures TypRejectsAsWritten(Decoded(NullHeaderToken, lib).header) == Failure(TypeError)
    ensures !StructurallyValid(NullHeaderToken, true, lib)
  {
    NullHeaderDecodes(NullSegment, lib);
  }

  /** On every header other than null the corrected `typ` check agrees with the
      as-written one. */
  lemma TypCheckAgrees(header: Json)
    requires header != JNull
    ensures TypRejectsAsWritten(header) == Success(!HasJwtTyp(header))
  {
  }
}
