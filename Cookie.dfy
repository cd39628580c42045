/** Cookie-header parsing: the `extractValueFromCookie` helper as the code
    computes it, and the value extraction its name and its caller evidently
    intended. A cookie header is cut at every `;` (no trimming), the first
    segment starting with `key=` is selected, and that segment is cut at `=`. */
module Cookie {

  import opened Wrappers
  import opened JsStrings

  /** The segments of a cookie header, `cookie.split(";")`. */
  function Segments(cookie: string): seq<string> {
    Split(cookie, ';')
  }

  /** True when segment `i` of `cookie` starts with `key=`. */
  predicate SegmentMatches(cookie: string, key: string, i: nat)
    requires i < |Segments(cookie)|
  {
    StartsWith(Segments(cookie)[i], key + "=")
  }

  /** True when some segment of `cookie` starts with `key=`. */
  predicate HasKey(cookie: string, key: string) {
    exists i :: 0 <= i < |Segments(cookie)| && SegmentMatches(cookie, key, i)
  }

  /** A segment that starts with `key=` has, as its text before its first
      `=`, the text of `key` before its first `=`. */
  lemma MatchingSegmentHead(seg: string, key: string)
    requires StartsWith(seg, key + "=")
    ensures Split(seg, '=')[0] == Split(key, '=')[0]
  {
  }

  /** `extractValueFromCookie(cookie, key)` as written: element 0 of the
      first matching segment split at `=`, or `undefined` when no segment
      matches. The element is the text before the segment's first `=`,
      which is (the part before any `=` of) the key itself, never the
      cookie's value. */
  function ExtractValueFromCookie(cookie: string, key: string): (r: Option<string>)
    ensures r.None? <==> !HasKey(cookie, key)
    ensures r.Some? ==> r.value == Split(key, '=')[0]
  {
    var parts := Segments(cookie);
    match FindIndex(parts, key + "=")
    case None => None
    case Some(i) =>
      assert SegmentMatches(cookie, key, i);
      MatchingSegmentHead(parts[i], key);
      Some(Split(parts[i], '=')[0])
  }

  /** For a key without `=`, a match yields the key itself. */
  lemma {:induction false} ExtractReturnsKey(cookie: string, key: string)
    requires '=' !in key
    requires HasKey(cookie, key)
    ensures ExtractValueFromCookie(cookie, key) == Some(key)
  {
  }

  /** Any matching segment, cut at `=`, gives the result: since every
      segment starting with `key=` has the same text before its first `=`,
      which segment `find` selects has no visible effect on the helper as
      written. The first-match rule matters only for the corrected lookup
      (`CookieValueFromJoined`). */
  lemma AnyMatchGivesResult(cookie: string, key: string, i: nat)
    requires i < |Segments(cookie)| && SegmentMatches(cookie, key, i)
    ensures ExtractValueFromCookie(cookie, key) == Some(Split(Segments(cookie)[i], '=')[0])
  {
    MatchingSegmentHead(Segments(cookie)[i], key);
  }

  /** A header made of two headers joined by `;`: a match in the left part
      decides; otherwise the right part is searched. */
  lemma {:induction false} ExtractFromJoined(left: string, right: string, key: string)
    ensures ExtractValueFromCookie(left + ";" + right, key) ==
      if ExtractValueFromCookie(left, key).Some? then ExtractValueFromCookie(left, key)
      else ExtractValueFromCookie(right, key)
  {
    SplitAround(left, right, ';');
    FindIndexAppend(Segments(left), Segments(right), key + "=");
  }

  /** Segments keep their leading spaces, so `k` is not found in
      `a=1; k=v`: its second segment is ` k=v`. */
  lemma SegmentsAreNotTrimmed(first: string, second: string, key: string)
    requires first == "a=1" && second == " k=v" && key == "k"
    ensures ExtractValueFromCookie(first + ";" + second, key) == None
  {
    ExtractFromJoined(first, second, key);
    SplitWithoutSep(first, ';');
    SplitWithoutSep(second, ';');
  }

  /** The intended extraction: the text of the first matching segment after
      its `key=` prefix, or `None` when no segment matches. */
  function ExtractCookieValue(cookie: string, key: string): (r: Option<string>)
    ensures r.None? <==> !HasKey(cookie, key)
    ensures r.Some? ==>
      exists i :: 0 <= i < |Segments(cookie)| && Segments(cookie)[i] == key + "=" + r.value &&
        forall j :: 0 <= j < i ==> !SegmentMatches(cookie, key, j)
  {
    var parts := Segments(cookie);
    match FindIndex(parts, key + "=")
    case None => None
    case Some(i) =>
      assert SegmentMatches(cookie, key, i);
      assert parts[i] == key + "=" + parts[i][|key| + 1..];
      Some(parts[i][|key| + 1..])
  }

  /** A header joined from two parts: the left part is searched first. */
  lemma {:induction false} CookieValueFromJoined(left: string, right: string, key: string)
    ensures ExtractCookieValue(left + ";" + right, key) ==
      if ExtractCookieValue(left, key).Some? then ExtractCookieValue(left, key)
      else ExtractCookieValue(right, key)
  {
    SplitAround(left, right, ';');
    var a, b := Segments(left), Segments(right);
    FindIndexAppend(a, b, key + "=");
    match FindIndex(a, key + "=")
    case Some(i) => assert (a + b)[i] == a[i];
    case None =>
      match FindIndex(b, key + "=")
      case None =>
      case Some(j) => assert (a + b)[|a| + j] == b[j];
  }

  /** Round trip: the value stored under `key` is the value read back. */
  lemma {:induction false} CookieValueRoundTrip(key: string, value: string)
    requires ';' !in key && ';' !in value
    ensures ExtractCookieValue(key + "=" + value, key) == Some(value)
  {
    var seg := key + "=" + value;
    assert ';' !in seg by {
      forall i | 0 <= i < |seg| ensures seg[i] != ';' {
        if i < |key| { assert seg[i] == key[i]; }
        else if i > |key| { assert seg[i] == value[i - |key| - 1]; }
      }
    }
    SplitWithoutSep(seg, ';');
    assert seg[|key| + 1..] == value;
  }

  /** The as-written helper and the intended one select the same segment:
      for a key without `=`, whenever a value `v` is found under `key`, the
      as-written helper gives back `key`, and `key=v` is the segment. */
  lemma {:induction false} AsWrittenReturnsKeyNotValue(cookie: string, key: string, v: string)
    requires '=' !in key
    requires ExtractCookieValue(cookie, key) == Some(v)
    ensures ExtractValueFromCookie(cookie, key) == Some(key)
    ensures exists i :: 0 <= i < |Segments(cookie)| && Segments(cookie)[i] == key + "=" + v
  {
  }

  /** An `auth_verification` cookie as a server sends it,
      `auth_verification=abc123; Path=/`: the helper as written yields the
      cookie's name, the intended one its value. */
  lemma AuthVerificationCounterexample(key: string, value: string, attributes: string)
    requires key == "auth_verification" && value == "abc123" && attributes == " Path=/"
    ensures ExtractValueFromCookie(key + "=" + value + ";" + attributes, key) == Some(key)
    ensures ExtractCookieValue(key + "=" + value + ";" + attributes, key) == Some(value)
  {
    CookieValueRoundTrip(key, value);
    CookieValueFromJoined(key + "=" + value, attributes, key);
    AsWrittenReturnsKeyNotValue(key + "=" + value + ";" + attributes, key, value);
  }
}
