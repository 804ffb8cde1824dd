# Zeabur keep-alive: cookie handling and login retry, modelled in Dafny

The keep-alive script logs in to the Zeabur console with a stored session
cookie string. It retries the login a few times, pausing longer after each
failure. After a successful login it writes the browser's refreshed cookies
back to the repository secret `ZEABUR_COOKIE`. This project models the parts
of `scripts/keep_alive.py` that carry logic of their own and proves
properties about them:

- `wrappers.dfy` (`Wrappers`): the `Option` type.
- `text.dfy` (`Text`): the Python string operations the script relies on, written out.
  They are `str.split(c)`, `str.split(c, 1)`, `str.strip()`, `sep.join(...)` and `sub in s`.
  The module proves the facts about them that the cookie proofs need.
  Examples: splitting and joining are inverse, and `strip()` only removes whitespace.
- `cookies.dfy` (`Cookies`): `parse_cookies` and `format_cookies`.
  `parse_cookies` turns a `name=value; name=value` string into cookie records with domain `.zeabur.com` and path `/`.
  `format_cookies` keeps the records whose domain mentions `zeabur.com` and renders them back as a string.
  `parse_cookies` is a method with a loop, proved against the specification function `Parse`.
- `login.dfy` (`Login`): the retry loop of `login_with_cookie`, written as a method.
  The browser is replaced by a sequence of per-attempt outcomes: a landing URL, or a raised exception.
  Each `time.sleep` is recorded as the pause it would have slept.
- `rotation.dfy` (`Rotation`): the guard in `main` that decides whether the secret is updated.
  The update needs a repository token, an `owner/name` repository and a non-empty cookie string.
  A repository that does not split into two parts makes the run exit with status 1.

Choices that shape the model:

- Whitespace for `strip()` is the set of characters Python's `str.isspace` accepts.
  That set is U+0009–U+000D, U+001C–U+0020, U+0085, U+00A0, U+1680, U+2000–U+200A, U+2028, U+2029, U+202F, U+205F and U+3000.
- A cookie record with no `domain` key is written with `domain == ""`.
  `format_cookies` reads the domain with `c.get('domain', '')`, so the two behave the same.
- An unset environment variable (`None`) is written as `""`.
  The guard only tests truthiness, and both values are falsy.
- `max_retries` is an integer, as in the source.
  A negative value makes `range(max_retries + 1)` empty, so no attempt runs.

The guard at `scripts/keep_alive.py:178` updates the secret whenever token,
repository and new cookie string are all non-empty. It never compares the new
string with the old one, so `Rotation.Decide` takes no old string.

## Model

| member | source | states |
|---|---|---|
| `Text.Split` | scripts/keep_alive.py:88 | `s.split(';')` gives one more piece than `s` has separators, and no piece contains the separator |
| `Text.JoinSplit` | scripts/keep_alive.py:88 | joining the pieces of `s.split(c)` with `c` gives `s` back |
| `Text.SplitJoin` | scripts/keep_alive.py:88 | splitting a `c`-join of separator-free pieces gives exactly those pieces (the inverse direction) |
| `Text.SplitOnce` | scripts/keep_alive.py:89-90 | `split('=', 1)` gives two parts exactly when `=` occurs; then `s == before + "=" + after` and `before` holds no `=`, so the split is at the first `=` |
| `Text.SplitOnceAt` | scripts/keep_alive.py:89 | the two parts are the text before and after the first `=`, whatever way that index is found |
| `Text.Strip` | scripts/keep_alive.py:89 | `strip()` never lengthens its input and leaves no whitespace at either end |
| `Text.JoinShape` | scripts/keep_alive.py:102 | `sep.join(parts)` is `""` for no parts, starts with the first part, and is as long as the parts plus one separator between each two |
| `Text.Contains` | scripts/keep_alive.py:102 | `sub in s` holds exactly when `sub` occurs in `s` at some index `i`: the slice of `s` of the length of `sub` starting at `i` equals `sub` |
| `Text.SlicesOfTail` | scripts/keep_alive.py:102 | an occurrence of `sub` in `s` is either at the front or an occurrence in `s[1..]`, which is how `Contains` searches |
| `Text.StripShape` | scripts/keep_alive.py:89 | `strip()` returns a slice of its input with only whitespace on both sides, and no whitespace at either end of the slice |
| `Text.StripKeeps` | scripts/keep_alive.py:89-90 | `strip()` removes only whitespace: a non-whitespace character is in `s.strip()` exactly when it is in `s` (so stripping first cannot hide an `=`) |
| `Text.StripIdempotent` | scripts/keep_alive.py:92-93 | `strip()` applied twice is `strip()` once |
| `Text.StripThenSplitOnce` | scripts/keep_alive.py:89-93 | stripping a segment before splitting it at its first non-whitespace separator gives the same stripped halves as splitting the raw segment |
| `Cookies.ParseSegment` | scripts/keep_alive.py:89-96 | a segment gives a cookie exactly when it contains `=`; a cookie from a `;`-free segment has domain `.zeabur.com`, path `/`, a stripped name without `=` or `;` and a stripped value without `;` |
| `Cookies.ParseSegmentReference` | scripts/keep_alive.py:89-96 | independent description: the name is the stripped text before the segment's first `=` and the value the stripped text after it |
| `Cookies.ParseSegments` | scripts/keep_alive.py:87-97 | there are never more cookies than segments |
| `Cookies.ParseCookies` | scripts/keep_alive.py:85-97 | the loop returns the cookies `Parse` specifies, each well formed (fixed domain and path, name and value shaped as above) |
| `Cookies.ParseSegmentsAppend` | scripts/keep_alive.py:88-96 | parsing goes segment by segment, so cookies appear in the order of their segments |
| `Cookies.ParseSegmentsCount` | scripts/keep_alive.py:89-90 | there is exactly one cookie per segment containing `=`; other segments are dropped |
| `Cookies.Parse` | scripts/keep_alive.py:85-97 | for any input string, `parse_cookies` returns at most (number of `;`) + 1 cookies, and every one is well formed |
| `Cookies.ParseSegmentsWellFormed` | scripts/keep_alive.py:91-96 | segments free of `;` yield only well-formed cookies |
| `Cookies.ParseEmpty` | scripts/keep_alive.py:88-90 | the empty string (one empty segment) parses to no cookies |
| `Cookies.KeptCookies` | scripts/keep_alive.py:102 | `format_cookies` keeps exactly the input cookies whose domain contains `zeabur.com`, and no more of them than were given |
| `Cookies.KeptCookiesAppend` | scripts/keep_alive.py:102 | the filter goes cookie by cookie, so the kept cookies stay in input order |
| `Cookies.KeptDomains` | scripts/keep_alive.py:94-102 | a missing (empty) domain is never kept; the `.zeabur.com` domain that parsing assigns always is |
| `Cookies.Format` | scripts/keep_alive.py:100-102 | the formatted string is `""` exactly when no cookie is kept (an empty or fully filtered list); otherwise it starts with the `name=value` of the first kept cookie |
| `Cookies.KeptWellFormed` | scripts/keep_alive.py:94-102 | formatting drops none of a list of well-formed cookies |
| `Cookies.FormatKeepsParsed` | scripts/keep_alive.py:85-102 | formatting drops none of the cookies that parsing produces |
| `Cookies.ParseFormat` | scripts/keep_alive.py:85-102 | round trip: parsing the formatted form of well-formed cookies gives the same cookies back, in order |
| `Cookies.ParseFormatParse` | scripts/keep_alive.py:85-102 | `parse_cookies(format_cookies(parse_cookies(s))) == parse_cookies(s)` for every string `s` |
| `Login.Succeeds` | scripts/keep_alive.py:114-126 | an attempt succeeds exactly when its guarded part did not raise and `/login` occurs at no index of the URL it landed on |
| `Login.LoginWithCookie` | scripts/keep_alive.py:107-134 | installs the parsed cookies; makes at most `max_retries + 1` attempts (none if negative); succeeds exactly when one of them reaches a URL without `/login`, and then stops at the first such attempt; an attempt whose guarded part raises (`Raised`: an exception from `goto`, `wait_for_timeout` or the URL check) counts as a failure; after failed attempt `k` it pauses `5*(k+1)` seconds, never after the last attempt; when all fail it has slept `max_retries` times, `5*m*(m+1)/2` seconds in all |
| `Login.LoginAsMain` | scripts/keep_alive.py:157 | with the default `max_retries = 2`: one to three attempts, success exactly when one of the first three succeeds, pauses a prefix of 5 and 10 seconds, both when all three fail |
| `Login.TotalPause` | scripts/keep_alive.py:128-131 | pauses of `5*(k+1)` seconds for `k < m` add up to `5*m*(m+1)/2` |
| `Rotation.Decide` | scripts/keep_alive.py:177-181 | skips exactly when the token, repository or new cookie string is empty; requests an update of `ZEABUR_COOKIE` to the new string exactly when, in addition, the repository has exactly one `/`, and then with owner and name such that `owner + "/" + name` is the repository; otherwise aborts with status 1 (the handler at lines 205-210) |
| `Rotation.DecideRequests` | scripts/keep_alive.py:178-181 | conversely, every `owner/name` repository, given a token and a cookie string, requests the update to that owner and name |

## Left out

- `send_telegram_message` and `send_telegram_photo` are not modelled. They are HTTP calls whose failures are only logged.
- `update_github_secret` is not modelled beyond the `Rotation.SecretUpdate.Requested` value.
  The public-key fetch, base64 coding, sealed-box encryption and PUT are calls into libraries and a remote service.
  An exception from them, which would also end the run with status 1, is not modelled.
- The Playwright browser is replaced by the `outcomes` oracle in `Login.LoginWithCookie`.
  Left out: launching it, creating contexts and pages, navigation, the 3-second settle, closing pages, the page object returned, and screenshots.
  How `context.add_cookies` merges the parsed cookies into the browser's cookie store is not modelled.
  The method returns the list that would be installed.
- `time.sleep` is not modelled as time passing. Each call is recorded as the number of seconds it would sleep.
- `main` is modelled only through its rotation guard.
  Left out: reading environment variables, exiting when `ZEABUR_COOKIE` is unset (lines 146-148), exiting with status 1 after a failed login (lines 159-164), timestamps, log and message text, and the Telegram branch.
- `Cookies.Format` assumes that every record has `name` and `value`.
  A kept record (one whose domain contains `zeabur.com`) without them would make the source raise `KeyError`; records with other domains are filtered out before `name` and `value` are read. Browser cookie records always carry both.
- The whitespace set is fixed to the characters listed above. Python derives its set from the Unicode database of the running interpreter.
- Login.LoginWithCookie: does not model exceptions raised outside the `try` of an attempt.
  These are `context.add_cookies` (line 110), `context.new_page` (line 113), `page.close` in the `except` branch (line 126) and the `context.new_page()` returned when every attempt fails (line 134).
  Such an exception leaves `login_with_cookie` and reaches the handler in `main` (lines 205-210), which exits with status 1.
  The model's all-fail result (`success == false`) stands for that last `new_page` call succeeding.
