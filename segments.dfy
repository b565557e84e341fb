/** `String.prototype.split` on one separator character, its inverse `join`,
    and the relaxed base64url check applied to each segment of a token. */
module Segments {

  /** `pieces.join([sep])`. */
  function Join(pieces: seq<string>, sep: char): (s: string)
    decreases |pieces|
    ensures |pieces| >= 1 ==> pieces[0] <= s
    ensures |pieces| >= 2 ==> |pieces[0]| < |s| && s[|pieces[0]|] == sep
  {
    if |pieces| == 0 then []
    else if |pieces| == 1 then pieces[0]
    else pieces[0] + [sep] + Join(pieces[1..], sep)
  }

  /** Joining three pieces puts one separator between each pair. */
  lemma JoinThree(a: string, b: string, c: string, sep: char)
    ensures Join([a, b], sep) == a + [sep] + b
    ensures Join([a, b, c], sep) == a + [sep] + b + [sep] + c
  {
    assert [a, b][1..] == [b];
    assert [a, b, c][1..] == [b, c];
    assert [b, c][1..] == [c];
    assert Join([c], sep) == c;
    assert Join([b, c], sep) == b + [sep] + c;
    assert Join([a, b, c], sep) == a + [sep] + Join([b, c], sep);
  }

  /** `s.split(sep)`: the separator-free runs of `s`, empty ones kept, so the
      result is never empty ("".split('.') is [""] and "a.".split('.') is ["a", ""]). */
  function Split(s: string, sep: char): (pieces: seq<string>)
    decreases |s|
    ensures |pieces| >= 1
    ensures forall i :: 0 <= i < |pieces| ==> sep !in pieces[i]
    ensures Join(pieces, sep) == s
  {
    if s == [] then [[]]
    else
      var rest := Split(s[1..], sep);
      if s[0] == sep then
        assert ([[]] + rest)[1..] == rest;
        [[]] + rest
      else
        var pieces := [[s[0]] + rest[0]] + rest[1..];
        assert pieces[1..] == rest[1..];
        assert |rest| > 1 ==> Join(rest, sep) == rest[0] + [sep] + Join(rest[1..], sep);
        assert s == [s[0]] + s[1..];
        pieces
  }

  /** Splitting a string that starts with a separator-free prefix `a`. */
  lemma {:induction false} SplitPrefix(a: string, s: string, sep: char)
    requires sep !in a
    ensures Split(a + s, sep) == [a + Split(s, sep)[0]] + Split(s, sep)[1..]
    decreases |a|
  {
    if a != [] {
      var ps := Split(s, sep);
      assert (a + s)[1..] == a[1..] + s;
      assert (a + s)[0] == a[0] && a[0] != sep;
      SplitPrefix(a[1..], s, sep);
      var rest := Split(a[1..] + s, sep);
      assert rest == [a[1..] + ps[0]] + ps[1..];
      assert rest[0] == a[1..] + ps[0] && rest[1..] == ps[1..];
      assert Split(a + s, sep) == [[a[0]] + rest[0]] + rest[1..];
      assert [a[0]] + (a[1..] + ps[0]) == a + ps[0];
    } else {
      var ps := Split(s, sep);
      assert a + s == s && a + ps[0] == ps[0];
      assert [ps[0]] + ps[1..] == ps;
    }
  }

  /** Split undoes Join whenever no piece holds the separator. */
  lemma {:induction false} SplitJoin(pieces: seq<string>, sep: char)
    requires |pieces| >= 1
    requires forall i :: 0 <= i < |pieces| ==> sep !in pieces[i]
    ensures Split(Join(pieces, sep), sep) == pieces
    decreases |pieces|
  {
    if |pieces| == 1 {
      SplitPrefix(pieces[0], [], sep);
      assert pieces[0] + [] == pieces[0];
    } else {
      var tail := Join(pieces[1..], sep);
      SplitJoin(pieces[1..], sep);
      assert pieces[0] + [sep] + tail == pieces[0] + ([sep] + tail);
      SplitPrefix(pieces[0], [sep] + tail, sep);
      assert ([sep] + tail)[0] == sep && ([sep] + tail)[1..] == tail;
      assert Split([sep] + tail, sep) == [[]] + pieces[1..];
      assert pieces[0] + [] == pieces[0];
      assert pieces == [pieces[0]] + pieces[1..];
    }
  }

  /** Every character of `s` other than the separator sits in some piece of `s.split(sep)`. */
  lemma {:induction false} CharInSomePiece(s: string, sep: char, i: nat)
    requires i < |s| && s[i] != sep
    ensures exists j :: 0 <= j < |Split(s, sep)| && s[i] in Split(s, sep)[j]
    decreases |s|
  {
    var pieces, rest := Split(s, sep), Split(s[1..], sep);
    if i == 0 {
      assert s[0] in pieces[0];
    } else {
      CharInSomePiece(s[1..], sep, i - 1);
      var j :| 0 <= j < |rest| && s[i] in rest[j];
      if s[0] == sep {
        assert pieces[j + 1] == rest[j];
      } else if j == 0 {
        assert pieces[0] == [s[0]] + rest[0];
      } else {
        assert pieces[j] == rest[j];
      }
    }
  }

  /** A character of the URL-safe base64 alphabet of section 5 of RFC 4648. */
  predicate IsBase64UrlChar(c: char) {
    ('A' <= c <= 'Z') || ('a' <= c <= 'z') || ('0' <= c <= '9') || c == '-' || c == '_'
  }

  /** `isValidBase64String(s, true)`: unpadded base64url text, the empty string included. */
  predicate IsRelaxedBase64Url(s: string)
    ensures IsRelaxedBase64Url(s) ==> '.' !in s && '+' !in s && '/' !in s && '=' !in s
  {
    forall i :: 0 <= i < |s| ==> IsBase64UrlChar(s[i])
  }

  /** Every piece passes the relaxed base64url check. */
  predicate AllRelaxedBase64Url(pieces: seq<string>) {
    forall i :: 0 <= i < |pieces| ==> IsRelaxedBase64Url(pieces[i])
  }
}
