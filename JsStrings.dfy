/** The JavaScript string and array built-ins the response helpers rely on:
    `String.prototype.split` with a one-character separator,
    `String.prototype.startsWith`, `Array.prototype.find`, and the character
    classes `\s` and "line terminator" of JavaScript regular expressions. */
module JsStrings {

  import opened Wrappers

  /** `s.startsWith(p)`. */
  predicate StartsWith(s: string, p: string) {
    p <= s
  }

  /** The inverse of `Split`: the segments glued back together with `sep`. */
  function Join(parts: seq<string>, sep: char): string
    requires |parts| >= 1
  {
    if |parts| == 1 then parts[0] else parts[0] + [sep] + Join(parts[1..], sep)
  }

  /** `s.split(sep)` for a one-character separator: every occurrence of `sep`
      ends a segment, empty segments are kept, nothing is trimmed, and the
      empty string gives one empty segment. */
  function Split(s: string, sep: char): (parts: seq<string>)
    ensures |parts| >= 1
    ensures forall i :: 0 <= i < |parts| ==> sep !in parts[i]
    ensures Join(parts, sep) == s
    decreases |s|
  {
    if |s| == 0 then [""]
    else if s[0] == sep then [""] + Split(s[1..], sep)
    else
      var rest := Split(s[1..], sep);
      [[s[0]] + rest[0]] + rest[1..]
  }

  /** A string without the separator is a single segment. */
  lemma {:induction false} SplitWithoutSep(s: string, sep: char)
    requires sep !in s
    ensures Split(s, sep) == [s]
  {
  }

  /** Splitting around one occurrence of the separator splits each side. */
  lemma {:induction false} SplitAround(a: string, b: string, sep: char)
    ensures Split(a + [sep] + b, sep) == Split(a, sep) + Split(b, sep)
    decreases |a|
  {
    var s := a + [sep] + b;
    if |a| == 0 {
      assert s[1..] == b;
    } else {
      assert s[1..] == a[1..] + [sep] + b;
      SplitAround(a[1..], b, sep);
      if a[0] != sep {
        PrependToFirst(a[0], Split(a[1..], sep), Split(b, sep));
      }
    }
  }

  /** Extending the first segment of a list commutes with appending
      segments after it. */
  lemma PrependToFirst(c: char, front: seq<string>, back: seq<string>)
    requires |front| >= 1
    ensures [[c] + (front + back)[0]] + (front + back)[1..] == ([[c] + front[0]] + front[1..]) + back
  {
    assert (front + back)[1..] == front[1..] + back;
  }

  /** `Split` is the inverse of `Join` on separator-free segments: a list of
      segments is recovered exactly from the string they make up. */
  lemma {:induction false} SplitJoin(parts: seq<string>, sep: char)
    requires |parts| >= 1
    requires forall i :: 0 <= i < |parts| ==> sep !in parts[i]
    ensures Split(Join(parts, sep), sep) == parts
    decreases |parts|
  {
    if |parts| == 1 {
      SplitWithoutSep(parts[0], sep);
    } else {
      SplitWithoutSep(parts[0], sep);
      SplitJoin(parts[1..], sep);
      SplitAround(parts[0], Join(parts[1..], sep), sep);
      assert [parts[0]] + parts[1..] == parts;
    }
  }

  /** The first segment is the whole text before the first separator. */
  lemma {:induction false} SplitHead(s: string, sep: char)
    ensures Split(s, sep)[0] <= s
    ensures |Split(s, sep)[0]| < |s| ==> s[|Split(s, sep)[0]|] == sep
  {
  }

  /** `parts.findIndex(part => part.startsWith(prefix))`: the index of the
      first element that starts with `prefix`, if any (`find` returns the
      element at that index). */
  function FindIndex(parts: seq<string>, prefix: string): (r: Option<nat>)
    ensures r.None? <==> forall j :: 0 <= j < |parts| ==> !StartsWith(parts[j], prefix)
    ensures r.Some? ==> r.value < |parts| && StartsWith(parts[r.value], prefix)
    ensures r.Some? ==> forall j :: 0 <= j < r.value ==> !StartsWith(parts[j], prefix)
    decreases |parts|
  {
    if |parts| == 0 then None
    else if StartsWith(parts[0], prefix) then Some(0)
    else match FindIndex(parts[1..], prefix)
      case None => None
      case Some(i) => Some(i + 1)
  }

  /** Searching a concatenation: the first list is searched first, then the
      second, whose indices are shifted by the first list's length. */
  lemma {:induction false} FindIndexAppend(a: seq<string>, b: seq<string>, prefix: string)
    ensures FindIndex(a + b, prefix) ==
      match FindIndex(a, prefix)
      case Some(i) => Some(i)
      case None =>
        match FindIndex(b, prefix)
        case None => None
        case Some(j) => Some(|a| + j)
  {
    var r := FindIndex(a + b, prefix);
    match FindIndex(a, prefix)
    case Some(i) => {
      assert (a + b)[i] == a[i];
      assert forall j :: 0 <= j < i ==> (a + b)[j] == a[j];
    }
    case None =>
      match FindIndex(b, prefix)
      case None => {
        forall j | 0 <= j < |a + b| ensures !StartsWith((a + b)[j], prefix) {
          if j < |a| { assert (a + b)[j] == a[j]; } else { assert (a + b)[j] == b[j - |a|]; }
        }
      }
      case Some(k) => {
        assert (a + b)[|a| + k] == b[k];
        forall j | 0 <= j < |a| + k ensures !StartsWith((a + b)[j], prefix) {
          if j < |a| { assert (a + b)[j] == a[j]; } else { assert (a + b)[j] == b[j - |a|]; }
        }
      }
  }

  /** The characters matched by `\s` in a JavaScript regular expression:
      the ECMAScript WhiteSpace and LineTerminator characters. */
  predicate IsJsWhitespace(c: char) {
    || c == '\t' || c == '\n' || c == '\U{000B}' || c == '\U{000C}' || c == '\r'
    || c == ' ' || c == '\U{00A0}' || c == '\U{1680}'
    || ('\U{2000}' <= c <= '\U{200A}')
    || c == '\U{2028}' || c == '\U{2029}' || c == '\U{202F}' || c == '\U{205F}'
    || c == '\U{3000}' || c == '\U{FEFF}'
  }

  /** The characters that `.` does not match in a JavaScript regular
      expression without the `s` flag. */
  predicate IsLineTerminator(c: char) {
    c == '\n' || c == '\r' || c == '\U{2028}' || c == '\U{2029}'
  }
}
