# JWT orchestration layer, modelled in Dafny

This project models the token module of a browser-based JWT editor. The module is `src/editor/jwt.js`. It handles JSON Web Tokens (RFC 7519) in the compact serialization of section 7.1 of RFC 7515: `header.payload.signature`, each segment unpadded base64url. It has four operations:

- `decode` never throws. It splits the token on `.` and parses the first two segments on their own. A segment that fails becomes `{}`, and any failure sets `errors`.
- `isToken` is the structural check. `decode` must succeed, the `typ` claim must be `"JWT"` when asked for, and every dot-separated segment must be relaxed base64url (the empty segment included).
- `sign` is strict. A missing or falsy `alg` throws before anything is signed.
- `verify` returns a boolean. It rejects non-tokens and headers without `alg` first, then asks the signature primitive. A primitive that throws gives `false`.

`sign` and `verify` share one key-derivation rule. If `alg.indexOf('HS') === 0` (the HMAC family), the secret is converted to hex: from base64url when `base64Secret` is set, from UTF-8 otherwise. Any other key is passed to the primitive unchanged.

Layout:

- `wrappers.dfy` (module `Wrappers`): `Option` and `Result`.
- `jsvalues.dfy` (module `JsValues`): the JSON values `JSON.parse` yields, JavaScript truthiness, property access (`Get` throws on null, `Property` is total), and `String.prototype.indexOf`.
- `segments.dfy` (module `Segments`): `Split`, which keeps empty pieces as `String.prototype.split` does, its inverse `Join`, and the relaxed base64url check.
- `jwt.dfy` (module `Jwt`): the four operations. `Decode` and `IsToken` are methods, as the source's record updates and `forEach` accumulator are imperative. `Decoded` and `StructurallyValid` are the functions that specify them, used by `Verify`. `Sign` and `Verify` are functions.
- `jwt_lemmas.dfy` (module `JwtLemmas`): the properties and the findings.

The foreign calls are fields of a `Library` value: `JSON.parse(b64utoutf8(s))`, `b64utohex`, `utf8tohex`, `jws.JWS.sign` and `jws.JWS.verify`. Each is a total function that returns `None` where the real call throws. So every theorem holds for every behaviour of the library. A theorem that needs more from the library (the round trip, the null-header findings) states it as a precondition.

## Model

| member | source | states |
|---|---|---|
| JsValues.Get | src/editor/jwt.js:38 | reading a property throws exactly when the value is null; otherwise it is the own property or undefined |
| JsValues.IndexOfFrom | src/editor/jwt.js:21 | the result is -1 when `sub` occurs nowhere at or after `from`, otherwise the first index where it occurs |
| JsValues.IndexOfZeroIsPrefix | src/editor/jwt.js:43 | `s.indexOf(sub) === 0` holds exactly when `s` starts with `sub` |
| Segments.Split | src/editor/jwt.js:70 | the pieces are never empty as a list, contain no separator, and join back to the input |
| Segments.SplitPrefix | src/editor/jwt.js:100 | splitting a string that starts with a separator-free prefix adds that prefix to the first piece |
| Segments.SplitJoin | src/editor/jwt.js:100 | split undoes join for separator-free pieces, so the pieces of a token are exactly its segments |
| Segments.JoinThree | src/editor/jwt.js:100 | joining two or three segments puts one dot between each pair |
| Segments.CharInSomePiece | src/editor/jwt.js:102 | every non-separator character of the token lies in one of the split pieces |
| JsValues.Truthy | src/editor/jwt.js:17 | `!v` holds exactly for null, false, 0 and the empty string (`!header.alg`, also at line 38) |
| JsValues.Property | src/editor/jwt.js:96 | a property is defined exactly when the value is an object with that own key, and is that key's value |
| JsValues.IndexOf | src/editor/jwt.js:43 | `s.indexOf(sub)` is -1 exactly when `sub` occurs nowhere, otherwise the first index where it occurs |
| Segments.Join | test/unit/editor/jwt.js:24-25 | the first piece is a prefix of the joined string and, with two or more pieces, is followed by the separator |
| Segments.IsRelaxedBase64Url | src/editor/jwt.js:102 | `isValidBase64String(s, true)`: every character is base64url, so no `.`, `+`, `/` or `=` passes; the empty string passes |
| Jwt.ParseSegment | src/editor/jwt.js:80 | `JSON.parse(b64utoutf8(split[i]))` is the parser's result on an existing segment and a failure on the undefined one past the end |
| Jwt.Decoded | src/editor/jwt.js:58-87 | the empty token is the degraded result; errors is clear exactly when there are two segments and both parse, and then header and payload are their parsed values |
| Jwt.HasJwtTyp | src/editor/jwt.js:96 | the corrected `typ === 'JWT'` holds exactly for an object whose own `typ` is the string "JWT"; a null header fails it without throwing |
| Jwt.StructurallyValid | src/editor/jwt.js:89-105 | what `isToken` accepts; an accepted token is non-empty and has at least two segments |
| Jwt.Decode | src/editor/jwt.js:58-87 | the record filled by two separate try/catch blocks equals the field-by-field decoded result; an empty token gives `{header:{}, payload:{}, errors:true}` without splitting |
| Jwt.TypRejectsAsWritten | src/editor/jwt.js:96 | `header.typ !== 'JWT'` throws exactly on a null header, otherwise it is the comparison |
| Jwt.IsToken | src/editor/jwt.js:89-105 | the result holds exactly when decode reported no errors, the typ claim is "JWT" if checked, and the accumulator of the loop is the conjunction of the base64url check over all segments |
| Jwt.FamilyOf | src/editor/jwt.js:21 | `alg.indexOf('HS')` throws a TypeError exactly when `alg` is neither a string nor an array |
| Jwt.DeriveKey | src/editor/jwt.js:21-27 | a non-HMAC algorithm passes the key through unchanged; only a failed family test or a failed HMAC conversion fails |
| Jwt.Alg | src/editor/jwt.js:17 | the `alg` claim is returned exactly when present and truthy |
| Jwt.Sign | src/editor/jwt.js:13-29 | a null header is a TypeError; `Missing "alg"` is raised exactly when the header has no truthy `alg`, for every library; a signed token is what the primitive returned under the derived key |
| Jwt.VerifyWithAlg | src/editor/jwt.js:42-55 | true exactly when an `alg` is present, the key derives without exception and the primitive answers true; a thrown exception is false |
| Jwt.VerifyAsWritten | src/editor/jwt.js:31-56 | the as-written verify throws, with a TypeError, exactly on a structurally valid token whose header decodes to null |
| Jwt.Verify | src/editor/jwt.js:31-56 | true exactly when the token is structurally valid, has a truthy `alg`, the key derives, and the primitive answers true |
| JwtLemmas.DecodeCompact | src/editor/jwt.js:70-86 | for two or more segments, header and payload are the parsed first and second segments or `{}`, errors is the OR of the two failures, and later segments are ignored |
| JwtLemmas.DecodeSingleSegment | src/editor/jwt.js:79-84 | a dotless non-empty token is a payload failure (`{}`, errors set), not a crash |
| JwtLemmas.SignatureOptional | test/unit/editor/jwt.js:22-29 | a valid token has at least two segments and stays valid cut to two segments, with or without a trailing dot |
| JwtLemmas.NonBase64UrlCharRejected | test/unit/editor/jwt.js:31-36 | a character outside the base64url alphabet (a standard-base64 `+`, `/` or `=`) makes both isToken and verify false |
| JwtLemmas.DotsOnlyToken | src/editor/jwt.js:100-104 | ".." passes the segment check and is a token exactly when the empty segment parses |
| JwtLemmas.DeriveKeyForString | src/editor/jwt.js:43-50 | for a string alg starting with "HS" the secret is converted from base64url or UTF-8 to hex, any other key is unchanged |
| JwtLemmas.VerifyRejectsBeforeCrypto | src/editor/jwt.js:32-40 | a non-token or a header without `alg` is false under every choice of key conversions and verify primitive |
| JwtLemmas.VerifyReportsPrimitive | src/editor/jwt.js:42-55 | past the early checks verify returns the primitive's answer, and false when it throws |
| JwtLemmas.SignAndVerifyShareKey | src/editor/jwt.js:21-50 | when the decoded alg is the one sign was given, verify checks with exactly the key the signature was made with |
| JwtLemmas.SignThenVerify | test/unit/editor/jwt.js:100-119 | if the primitive writes header and payload as the first two base64url segments and accepts what it signed, decode returns them and verify accepts |
| JwtLemmas.NullHeaderDecodes | src/editor/jwt.js:72-77 | a two-segment token whose segments decode to null is structurally valid with a null header |
| JwtLemmas.NullHeaderMakesVerifyThrow | src/editor/jwt.js:38 | on "bnVsbA.bnVsbA" the as-written verify throws a TypeError; the corrected one is false |
| JwtLemmas.VerifyCatchesAsWritten | src/editor/jwt.js:31-56 | the corrected verify agrees with the as-written one wherever it returns, and is false where it throws |
| JwtLemmas.NullHeaderMakesTypCheckThrow | src/editor/jwt.js:96 | on "bnVsbA.bnVsbA" the as-written typ check of isToken(t, true) throws; the corrected isToken rejects |
| JwtLemmas.TypCheckAgrees | src/editor/jwt.js:96 | on every non-null header the corrected typ check agrees with the as-written one |

## Findings

| source | as written | input that shows it | evidently intended | confidence | as-written member | corrected member |
|---|---|---|---|---|---|---|
| src/editor/jwt.js:38 | `decoded.header.alg` is read outside the try block, so a header that parses to `null` throws a TypeError out of `verify` | `bnVsbA.bnVsbA` ("bnVsbA" is base64url for the JSON text `null`) | `verify` is total and returns false | high that it throws; not executed | Jwt.VerifyAsWritten, JwtLemmas.NullHeaderMakesVerifyThrow | Jwt.Verify, JwtLemmas.VerifyCatchesAsWritten |
| src/editor/jwt.js:96 | `decoded.header.typ` on a header that parsed to `null` throws a TypeError out of `isToken(t, true)` | `bnVsbA.bnVsbA` with `checkTypClaim` set | `isToken` is total and returns false | high that it throws; not executed | Jwt.TypRejectsAsWritten, JwtLemmas.NullHeaderMakesTypCheckThrow | Jwt.IsToken, JwtLemmas.TypCheckAgrees |

Beyond the two findings, the model follows the code where it is looser than its intent:

- `sign` can fail in more ways than a missing `alg`. It throws a TypeError on a null header, or on a truthy `alg` that is neither a string nor an array, because `indexOf` is then not callable. It also lets exceptions from the key conversions through.
- An array `alg` reaches `Array.prototype.indexOf`. It selects the HMAC family when its first element is the string "HS".
- The token `..` passes the segment check. Whether it is a token depends on whether the empty segment parses (`DotsOnlyToken`). With the real `JSON.parse("")`, which throws, it is rejected.

## Left out

- The cryptography (HMAC, RSA, RSA-PSS, ECDSA), hex conversion, UTF-8 decoding and JSON parsing are all inside jsrsasign or `JSON`. They are parameters of type `Library`, with `None` for a call that throws. The concrete test vectors need real cryptography.
- `isValidBase64String` comes from `src/utils.js`, which is not part of this model. Its relaxed mode is modelled as "every character is in `A-Z a-z 0-9 - _`", which accepts the empty string. The strict mode and any length rule it may have are not modelled.
- `log.warn` in `verify`'s catch block is diagnostic output and is dropped.
- Arguments that are not strings are not modelled. A null or undefined token is falsy and behaves like `""`. A truthy non-string token, on which `jwt.split` throws, is not modelled.
- Property reads model own keys only. Prototype members and a `__proto__` key in parsed JSON are not modelled. `alg` and `typ` are not inherited members, so these reads are unaffected.
- JSON numbers are modelled as reals. Only their truthiness matters here.
- The default values of `checkTypClaim` and `base64Secret` (false) are by convention: every caller in the model passes both explicitly.
- The DOM wiring in `src/extension/index.js`, the string table in `src/strings.js`, the bundler configuration and the test harness are outside the token module.
