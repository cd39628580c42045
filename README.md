# Response-parsing helpers of the SSO login commands

This project models, in Dafny, the response-parsing helpers of the test
suite's single-sign-on login commands. The helpers read the HTTP responses of
the programmatic login flow:

- `getLocationUrl` and `getLoc` return the `location` header of the first
  recorded exchange.
- `getAuthVerification` looks up the `auth_verification` cookie in the first
  `set-cookie` line, through `extractValueFromCookie`.
- `getRedirectUrl` applies the regular expression `^\S+ (.+)$` to the first
  redirect line and returns its capture group, or `null`.
- `getAppSession` returns the whole `set-cookie` list.

The same six helpers appear, unchanged, in `commands.updated.js` (lines
97-139) and `commands.final.js` (lines 50-92). The model defines each helper
once. The table rows cite the lines of either copy.

Files:

- `Wrappers.dfy` defines `Option`. `None` stands for `undefined` or `null`.
- `JsStrings.dfy` defines the JavaScript built-ins the helpers use:
  - `split` with a one-character separator, proved to be the inverse of
    joining;
  - `startsWith`;
  - `findIndex`, the index of the element that `find` returns;
  - the regular-expression classes `\s` and "line terminator".
- `Cookie.dfy` holds `extractValueFromCookie` as written. It also holds the
  extraction the code evidently meant (see Findings).
- `Redirect.dfy` gives the regular expression two forms, proved equivalent:
  - a relation: the line is a whitespace-free token, one space, and a
    non-empty single-line capture;
  - a scan for the first whitespace character.
- `Response.dfy` holds the response record and the helpers that read it.

Every helper is pure, so the model uses only datatypes, functions and lemmas.

## Model

| member | source | states |
|---|---|---|
| JsStrings.Split | commands.updated.js:134 | `split` yields at least one segment, no segment contains the separator, and joining the segments with the separator gives back the input |
| JsStrings.SplitJoin | commands.updated.js:133-134 | splitting a joined list of separator-free segments gives back exactly that list, so empty segments are kept and nothing is trimmed |
| JsStrings.SplitAround | commands.final.js:86-87 | splitting `a + sep + b` gives the segments of `a` followed by the segments of `b` |
| JsStrings.SplitWithoutSep | commands.final.js:89 | a string without the separator splits into one segment, itself |
| JsStrings.SplitHead | commands.updated.js:136 | the first segment is a prefix of the input and is followed by the separator, unless it is the whole input |
| JsStrings.StartsWith | commands.updated.js:135 | `part.startsWith(p)`: `p` is a prefix of `part`, compared character by character without trimming; the empty prefix always matches |
| JsStrings.FindIndex | commands.updated.js:135 | the result is `None` exactly when no element starts with the prefix; otherwise it is the least index of an element that does |
| JsStrings.FindIndexAppend | commands.final.js:88 | searching a concatenation searches the left list first, then the right list with its indices shifted |
| Cookie.MatchingSegmentHead | commands.updated.js:136 | a segment starting with `key=` has the same text before its first `=` as `key` has |
| Cookie.ExtractValueFromCookie | commands.updated.js:131-139 | the result is `None` exactly when no segment starts with `key=`; otherwise it is the text of `key` before its first `=`, not the cookie's value |
| Cookie.ExtractReturnsKey | commands.updated.js:132-136 | for a key without `=` that is found, the result is the key itself |
| Cookie.AnyMatchGivesResult | commands.final.js:86-89 | every segment that starts with `key=`, cut at its first `=`, gives the result, so which matching segment `find` selects has no visible effect on the helper as written |
| Cookie.ExtractFromJoined | commands.updated.js:135 | in a header `left;right`, a match in `left` decides the result, and only otherwise is `right` searched |
| Cookie.SegmentsAreNotTrimmed | commands.updated.js:134-135 | segments are not trimmed: `a=1; k=v` gives `None` for key `k` because its second segment starts with a space |
| Cookie.ExtractCookieValue | commands.final.js:84-92 | the corrected lookup: `None` exactly when no segment starts with `key=`; otherwise `v` such that the first matching segment is `key=v` |
| Cookie.CookieValueFromJoined | commands.final.js:86-88 | the corrected lookup also lets the first match win across `left;right` |
| Cookie.CookieValueRoundTrip | commands.updated.js:106 | the corrected lookup reads back the value written under the key, for a key and value without `;` |
| Cookie.AsWrittenReturnsKeyNotValue | commands.updated.js:131-139 | for a key without `=`, whenever the corrected lookup finds `v`, the helper as written returns the key, and `key=v` is a segment of the header |
| Cookie.AuthVerificationCounterexample | commands.updated.js:104-109 | for `auth_verification=abc123; Path=/` the helper as written gives `auth_verification` and the corrected lookup gives `abc123` |
| JsStrings.IsJsWhitespace | commands.updated.js:119 | the `\s` class that `\S` excludes: tab, line feed, vertical tab, form feed, carriage return, space, no-break space, U+1680, U+2000 to U+200A, U+2028, U+2029, U+202F, U+205F, U+3000 and U+FEFF |
| JsStrings.IsLineTerminator | commands.updated.js:119 | the characters `.` does not match without the `s` flag: line feed, carriage return, U+2028 and U+2029 |
| Redirect.RegexMatches | commands.updated.js:119 | `^\S+ (.+)$` matches the whole line with capture `captured`: the line is a non-empty run of non-`\s` characters, one U+0020 space, then `captured`, which is non-empty and has no line terminator; both ends are anchored |
| Redirect.TokenLength | commands.updated.js:119 | the scan returns the position of the first `\s` character, or the length of the line when there is none |
| Redirect.ExecRedirect | commands.updated.js:119-122 | a capture is a single non-empty line that follows a space at position `k > 0`, and the text before `k` is whitespace-free |
| Redirect.TokenLengthOfMatch | commands.final.js:72 | on `token + " " + rest` with a whitespace-free non-empty token, the scan stops at the end of the token |
| Redirect.ExecRedirectCorrect | commands.final.js:71-76 | the scan returns `captured` exactly when the line is a non-empty whitespace-free token, one space, and `captured`, which is a non-empty single line |
| Redirect.ExecRedirectMatchesRegex | commands.updated.js:120-122 | the scan's result is the regular expression's capture, and the scan finds nothing exactly when there is no match |
| Redirect.RegexCaptureUnique | commands.updated.js:119 | the regular expression captures at most one text from a line |
| Redirect.ExecRedirectReassembles | commands.final.js:71-76 | on a match, the longest whitespace-free prefix, one space and the capture reassemble the line |
| Redirect.StatusLineExample | commands.updated.js:119-122 | `HTTP/1.1 302 https://x.test/cb` yields `302 https://x.test/cb`, so later spaces stay in the capture |
| Redirect.TabBeforeSpaceExample | commands.updated.js:119 | `a<TAB>b c` has no match, because its first whitespace character is not a space |
| Redirect.EmptyRestExample | commands.updated.js:119 | `302 ` has no match, because the capture must not be empty |
| Response.GetLocationUrl | commands.updated.js:97-102 | the result is the first exchange's `location` response header, or `None` when that exchange has none |
| Response.GetLoc | commands.updated.js:111-116 | the same lookup of the first exchange's `location` header |
| Response.LocationHelpersAgree | commands.final.js:50-69 | `getLocationUrl` and `getLoc` compute the same value for every response |
| Response.LocationReadsFirstExchangeOnly | commands.final.js:50-55 | two responses with the same first exchange get the same location |
| Response.GetAuthVerification | commands.updated.js:104-109 | the result is present exactly when the first `set-cookie` line has a segment starting with `auth_verification=`, and it is then the text `auth_verification` |
| Response.LaterSetCookieIgnored | commands.final.js:57-62 | when the first `set-cookie` line has no `auth_verification=` segment, the result is `None`, whatever the later lines and the other headers hold |
| Response.IntendedAuthVerification | commands.updated.js:104-109 | the corrected `getAuthVerification`, whose intent commands.updated.js:81 shows by sending the value back as `auth_verification=<value>`: it finds a value exactly when the helper as written finds the key, and `auth_verification=<value>` is then the first segment of the first `set-cookie` line that starts with `auth_verification=` |
| Response.RedirectLine | commands.updated.js:120 | the string `exec` tests: the first redirect, or the text `undefined` when the list is empty, because `exec` converts its `undefined` argument to that string |
| Response.GetRedirectUrl | commands.updated.js:118-123 | an empty redirect list gives `None`; otherwise a result is the regular expression's capture on the first line, and `None` means that line does not match |
| Response.GetAppSession | commands.updated.js:125-129 | the result is the `set-cookie` list itself, unchanged, or `None` when the response has none |

## Left out

- The `ssoLogin` command sequences (commands.updated.js:16-32, commands.final.js:16-44) are not modelled. They are browser automation (visit, get, type, click) run by the test runner and compute nothing.
- The request chain after the early `return` (commands.updated.js:34-94) is not modelled. It cannot be reached, it consists of network requests, and it passes values through the runner's global environment. Only the helpers it calls are modelled.
- The `log` command overwrite (commands.updated.js:161-170) is not modelled. It is console and task I/O chosen by the headless-browser flag.
- The `beforeEach` wait and the default command timeout are not modelled. They are timing configuration only.
- cypress.config.js and index.js are not part of this model. They hold configuration, plugin registration, a pass-through database task, and a spreadsheet reader whose row order and empty-row behaviour belong to its library.
- Response.GetLocationUrl and Response.GetLoc: a response without a first exchange makes the code throw a `TypeError`. The model requires a first exchange instead of modelling the exception.
- Response.GetAuthVerification: a response without a `set-cookie` list, or with an empty one, makes the code throw a `TypeError`. The model requires a first `set-cookie` line instead.
- The response record always has `headers`, `redirects` and, in every exchange, `Response Headers`. In the source, a response or exchange without one of them makes the code throw a `TypeError` (commands.updated.js:99, :105, :113, :120, :126; commands.final.js:52, :58, :66, :73, :79). Those exceptions are not modelled.
- The values of the top-level `headers` field are modelled as lists of lines, which is what `set-cookie` holds. No other header of `headers` is read. Each exchange's `Response Headers` object is modelled as a map from names to single strings.
- Redirect.ExecRedirect: only this one regular expression is modelled, without a general regular-expression engine. Dafny characters are Unicode scalar values, while JavaScript strings are UTF-16 code units. For this pattern the result is the same: surrogate halves are neither whitespace nor line terminators.

## Findings

| source | as written | input that shows it | evidently intended | confidence | as-written member | corrected member |
|---|---|---|---|---|---|---|
| commands.updated.js:131-139 (same code at commands.final.js:84-92) | the helper returns element 0 of the matching segment split at `=`, which is the key's text | cookie `auth_verification=abc123; Path=/` with key `auth_verification` gives `auth_verification` | the cookie's value, `abc123`: the caller at commands.updated.js:106 names the result `authVerification`, commands.updated.js:47 stores it as the `auth_verification` value, and commands.updated.js:81 sends it back as `auth_verification=<value>` | high; not executed | Cookie.AuthVerificationCounterexample | Cookie.CookieValueRoundTrip |

The as-written behaviour is `Cookie.ExtractValueFromCookie`. The
`getAuthVerification` helper uses it as written (`Response.GetAuthVerification`).
The corrected lookup is `Cookie.ExtractCookieValue`. `Cookie.CookieValueRoundTrip`
and `Cookie.CookieValueFromJoined` prove its round trip and its first-match
rule. `Response.IntendedAuthVerification` applies it to the response.
