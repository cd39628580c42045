/** Redirect-line parsing: the anchored JavaScript regular expression
    `^\S+ (.+)$` (no flags) applied to one line, first as the relation the
    regular expression denotes, then as a scan for the first whitespace
    character, and a proof that the two agree. */
module Redirect {

  import opened Wrappers
  import opened JsStrings

  /** What `\S+` matches: a non-empty run of non-whitespace characters. */
  predicate IsToken(t: string) {
    |t| > 0 && forall i :: 0 <= i < |t| ==> !IsJsWhitespace(t[i])
  }

  /** What `.+` matches: a non-empty run without line terminators. */
  predicate IsSingleLine(r: string) {
    |r| > 0 && forall i :: 0 <= i < |r| ==> !IsLineTerminator(r[i])
  }

  /** The regular expression matches the whole of `line` with capture group
      1 equal to `captured`. */
  ghost predicate RegexMatches(line: string, captured: string) {
    exists token :: IsToken(token) && IsSingleLine(captured) && line == token + " " + captured
  }

  /** The length of the longest whitespace-free prefix of `s`: the position
      of the first `\s` character, or `|s|` when there is none. */
  function TokenLength(s: string): (n: nat)
    ensures n <= |s|
    ensures forall i :: 0 <= i < n ==> !IsJsWhitespace(s[i])
    ensures n < |s| ==> IsJsWhitespace(s[n])
    decreases |s|
  {
    if |s| == 0 || IsJsWhitespace(s[0]) then 0 else 1 + TokenLength(s[1..])
  }

  /** `/^\S+ (.+)$/.exec(line)`, returning capture group 1: the first
      whitespace character must come after at least one character and be a
      space, and the rest of the line after it must be a non-empty single
      line. */
  function ExecRedirect(line: string): (r: Option<string>)
    ensures r.Some? ==> IsSingleLine(r.value)
    ensures r.Some? ==>
      exists k :: 0 < k < |line| && line[k] == ' ' && IsToken(line[..k]) && r.value == line[k + 1..]
  {
    var n := TokenLength(line);
    assert 0 < n <= |line| ==> IsToken(line[..n]) by {
      forall i | 0 <= i < n && n <= |line| ensures !IsJsWhitespace(line[..n][i]) {
        assert line[..n][i] == line[i];
      }
    }
    if 0 < n < |line| && line[n] == ' ' && IsSingleLine(line[n + 1..]) then Some(line[n + 1..])
    else None
  }

  /** A token followed by a space fixes where the token ends: the scan stops
      exactly at that space. */
  lemma {:induction false} TokenLengthOfMatch(token: string, rest: string)
    requires IsToken(token)
    ensures TokenLength(token + " " + rest) == |token|
  {
    var s := token + " " + rest;
    var n := TokenLength(s);
    assert s[|token|] == ' ';
  }

  /** The scan and the regular expression agree, in both directions. */
  lemma {:induction false} ExecRedirectCorrect(line: string, captured: string)
    ensures ExecRedirect(line) == Some(captured) <==> RegexMatches(line, captured)
  {
    if ExecRedirect(line) == Some(captured) {
      var n := TokenLength(line);
      var token := line[..n];
      assert IsToken(token) by {
        forall i | 0 <= i < |token| ensures !IsJsWhitespace(token[i]) {
          assert token[i] == line[i];
        }
      }
      assert line == token + " " + captured;
    }
    if RegexMatches(line, captured) {
      var token :| IsToken(token) && IsSingleLine(captured) && line == token + " " + captured;
      TokenLengthOfMatch(token, captured);
      assert line[|token| + 1..] == captured;
    }
  }

  /** What the scan returns is the regular expression's capture, and the
      regular expression has no match exactly when the scan finds none. */
  lemma ExecRedirectMatchesRegex(line: string)
    ensures ExecRedirect(line).Some? ==> RegexMatches(line, ExecRedirect(line).value)
    ensures ExecRedirect(line).None? <==> forall captured :: !RegexMatches(line, captured)
  {
    if ExecRedirect(line).Some? {
      ExecRedirectCorrect(line, ExecRedirect(line).value);
    } else {
      forall captured ensures !RegexMatches(line, captured) {
        ExecRedirectCorrect(line, captured);
      }
    }
  }

  /** The regular expression captures at most one text from a line. */
  lemma RegexCaptureUnique(line: string, c1: string, c2: string)
    requires RegexMatches(line, c1) && RegexMatches(line, c2)
    ensures c1 == c2
  {
    ExecRedirectCorrect(line, c1);
    ExecRedirectCorrect(line, c2);
  }

  /** On a match, the line is the token, one space and the captured text,
      and the token is the longest whitespace-free prefix of the line. */
  lemma ExecRedirectReassembles(line: string)
    requires ExecRedirect(line).Some?
    ensures var n := TokenLength(line);
      IsToken(line[..n]) && line[..n] + " " + ExecRedirect(line).value == line
  {
  }

  /** The capture is everything after the first space, further spaces
      included: the status line `HTTP/1.1 302 https://x.test/cb` yields
      `302 https://x.test/cb`. */
  lemma StatusLineExample(token: string, rest: string)
    requires token == "HTTP/1.1" && rest == "302 https://x.test/cb"
    ensures ExecRedirect(token + " " + rest) == Some(rest)
  {
    ExecRedirectCorrect(token + " " + rest, rest);
  }

  /** A line whose first whitespace character is a tab has no match, even
      with a later space. */
  lemma TabBeforeSpaceExample()
    ensures ExecRedirect("a\tb c") == None
  {
    assert TokenLength("a\tb c") == 1;
  }

  /** A line that ends right after its first space has no match: the
      captured text must not be empty. */
  lemma EmptyRestExample()
    ensures ExecRedirect("302 ") == None
  {
    TokenLengthOfMatch("302", "");
    assert "302" + " " + "" == "302 ";
  }
}
