# MS-Rewards-Farmer `Utils` helpers, modelled in Dafny

This project models the self-contained logic inside the `Utils` helper class of
MS-Rewards-Farmer (`src/utils.py`). That class wraps a Selenium browser session
for the reward-farming script. The browser is never driven here. Every place
where the Python code asks the driver something becomes an oracle parameter:
a function to the driver's answer from the probe number (the pollers), from
the iteration number (`goHome`) or from the button's locator
(`tryDismissAllMessages`). Sleeps, refreshes, navigations and clicks are not
performed. The pollers report their sleeps and refreshes as counts.
`tryDismissAllMessages` reports its click attempts per locator. `goHome`
reports one record per iteration, with its dismiss call, re-navigation and
refresh.

- `Polling` (polling.dfy): the two bounded poll-then-refresh loops,
  `waitForMSRewardElement` and `waitUntilJS`. `checks = 5 / 0.5` is the integer
  10. Since the test is `tries < checks`, each page load gets 11 probes. With
  the initial load and 5 refreshes that is at most 66 probes. `FirstWhere` is
  the reference "first probe that ends the wait", and `Spent` is the closed form
  of the probes, sleeps and refreshes of a run of a given length.
- `Navigation` (navigation.dfy): `tryDismissAllMessages`, which clicks through
  7 fixed dialog selectors, and the `goHome` retry loop. `StepAt` is the
  reference description of one `goHome` iteration.
- `AnswerCode` (answer_code.dfy): `getAnswerCode`. It uses a model of
  `int(key[-2:], 16)` and of `str` on integers, with `ParseDecimal` as the
  partner for the round trip.
- `Searches` (searches.dfy): `getRemainingSearches` over a dashboard datatype.
  Its division is Python's `int(a / b)`, which truncates toward zero.
- `Wrappers` (wrappers.dfy): `Option` and `Result`. They stand for a Python
  exception in place of a value: `ValueError` in `AnswerCode`, `KeyError` and
  `IndexError` in `Searches`. The escaping script error of `waitUntilJS` is
  `Polling.ScriptRun.Raised`.

Facts about the code that the model makes explicit:
- `waitUntilJS` does not catch `execute_script` errors (src/utils.py:76), so
  `WaitUntilJS` can end in `Raised`.
- An exhausted poller makes 66 probes (6 loads × 11), 60 interval sleeps and 5
  refreshes (`Polling.SpentAll`).
- `int(a / b)` truncates toward zero, not down (`Searches.TruncDivIsNotFloor`).

## Model

| member | source | states |
|---|---|---|
| `Polling.WaitForMSRewardElement` | src/utils.py:35-58 | returns true iff one of the first 66 probes finds the element; a lookup error counts as a miss; the run made exactly k+1 probes when the first hit is probe k (66 when none), with `Spent`'s refreshes and sleeps |
| `Polling.Spent` | src/utils.py:40-56 | a run of n ≤ 66 probes issues at most 5 refreshes, one settle sleep per refresh, and one interval sleep for every other probe but the last |
| `Polling.SpentAt` | src/utils.py:49-55 | after `refreshCount` refreshes and `tries` misses on the current load (11 probes and 10 interval sleeps per finished load, one interval sleep per miss), the next probe stays within 66 and brings the run to exactly `Spent`'s tally for one more probe |
| `Polling.FirstWhere` | src/utils.py:44-47 | the first probe index below n that ends the wait, or n: every earlier probe misses and the index itself hits |
| `Polling.FirstWhereUnique` | src/utils.py:44-47 | any index preceded only by misses that is itself a hit (or n) is the one `FirstWhere` picks |
| `Polling.SpentAll` | src/utils.py:36-40 | a run that exhausts its probes made 66 probes, 60 interval sleeps, 5 refreshes and 5 settle sleeps |
| `Polling.WaitUntilJS` | src/utils.py:66-89 | the result is what the last `execute_script` did: the first truthy value or the first script error among 66 evaluations, else the 66th (falsy) value; probes, sleeps and refreshes as in `Spent` |
| `Polling.Outcome` | src/utils.py:76-89 | the last `execute_script` call raises out of `waitUntilJS` exactly when it was a script error, and otherwise its value is returned |
| `Polling.SettlesIffEnds` | src/utils.py:76-78 | an evaluation ends the polling (`if elem:` or an escaping error) exactly when, as the last one, it would raise or return a truthy value |
| `Polling.ScriptEnding` | src/utils.py:76-89 | `waitUntilJS` returns a truthy value iff some evaluation is truthy with only falsy values before it, and raises iff a script error comes with only falsy values before it |
| `Navigation.ClicksTried` | src/utils.py:185-189 | clicks attempted on one selector's matches: all of them when every click succeeds, otherwise up to and including the first failing one |
| `Navigation.ClickAll` | src/utils.py:185-189 | the click loop succeeds iff every click succeeds and attempts exactly `ClicksTried` clicks |
| `Navigation.TryDismissAllMessages` | src/utils.py:171-193 | looks the 7 buttons up once each, in the listed order; attempts per selector as `ClicksTried` (none when the lookup raised); returns true iff some lookup did not raise and all of its clicks succeeded (an empty match list included) |
| `Navigation.GoHome` | src/utils.py:108-134 | runs up to and including the first iteration that sees the marker, and at most 50 iterations; iteration i calls `tryDismissAllMessages` only off the BASE_URL host, navigates back only when that call returns true, and refreshes exactly when i+1 is a multiple of 10 |
| `Navigation.StepAt` | src/utils.py:117-134 | one `goHome` iteration: it stops exactly on the marker and then does nothing else; `tryDismissAllMessages` is called exactly off the BASE_URL host; BASE_URL is re-opened exactly when that call returns true; the page is refreshed exactly on a failed iteration whose number (from 1) is a multiple of 10 |
| `Navigation.RefreshDue` | src/utils.py:128-130 | with `reloads*10 + intervalCount` iterations done, the next one refreshes iff `intervalCount` reaches 10 |
| `Navigation.RefreshesBounded` | src/utils.py:128-134 | any prefix of a `goHome` run refreshes at most once per ten iterations, so at most 5 times |
| `AnswerCode.CodePointSumFromFront` | src/utils.py:137 | the code-point sum taken front to back over `range(len(string))`: the first code point plus the sum of the rest |
| `AnswerCode.CodePointSumAppend` | src/utils.py:137 | the code-point sum distributes over concatenation |
| `AnswerCode.LastTwo` | src/utils.py:138 | `key[-2:]` is the last min(2, len(key)) characters of `key` |
| `AnswerCode.HexValue` | src/utils.py:138 | one hex digit is below 16 and two are below 256 |
| `AnswerCode.Strip` | src/utils.py:138 | the result of skipping whitespace is no longer than the input and neither starts nor ends with whitespace |
| `AnswerCode.StripRemovesOnlySpace` | src/utils.py:138 | `int()` drops only the whitespace around its digits: the stripped string is a contiguous slice of the input, and everything before and after that slice is whitespace |
| `AnswerCode.ParseHex` | src/utils.py:138 | `int(s, 16)` on at most two characters, when it succeeds, lies in -15..255 |
| `AnswerCode.NatToDecimal` | src/utils.py:139 | `str(n)` is a non-empty string of decimal digits with no leading zero |
| `AnswerCode.IntToDecimal` | src/utils.py:139 | `str(t)` is non-empty, starts with '-' exactly when t is negative, and is otherwise (after the sign) all digits |
| `AnswerCode.NatDecimalRoundTrip` | src/utils.py:139 | reading the digits of `str(n)` back gives n |
| `AnswerCode.DecimalRoundTrip` | src/utils.py:139 | `int(str(i)) == i` for every integer i |
| `AnswerCode.GetAnswerCode` | src/utils.py:136-139 | `getAnswerCode` raises ValueError exactly when `int(key[-2:], 16)` does; the code is never empty, and is negative only when the code-point sum is below 15 |
| `AnswerCode.AnswerCodeReadsBack` | src/utils.py:136-139 | `getAnswerCode` fails (ValueError) iff `int(key[-2:], 16)` fails; otherwise the code is `str` of the code-point sum of `string` plus that value, and reads back as that number |
| `AnswerCode.AnswerCodeOfHexKey` | src/utils.py:136-139 | when `key` ends in two hex digits, the added term is their base-16 value (at most 255) and the code is the plain decimal rendering of the code-point sum plus that term |
| `AnswerCode.TwoHexDigits` | src/utils.py:138 | `int(hi + lo, 16)` of two hex digits is 16 × value(hi) + value(lo) |
| `AnswerCode.NatDecimalFacts` | src/utils.py:139 | `str(n)` of a natural number is all digits, starts with 0 only when it is "0", and `int` reads it back as n |
| `AnswerCode.AnswerCodeOfEmptyKey` | src/utils.py:138 | an empty key raises ValueError |
| `Searches.PointsPerSearch` | src/utils.py:225-242 | 3 points per search iff the desktop target is 33 or 102; 5 iff it is 55 or at least 170; 1 otherwise |
| `Searches.TruncDiv` | src/utils.py:243 | `int(a / b)` for b > 0: the quotient truncated toward zero, characterised by its remainder lying within one divisor of zero on the side of a |
| `Searches.TruncDivUnique` | src/utils.py:243 | that characterisation determines the quotient |
| `Searches.MulStep` | src/utils.py:243 | multiples of a positive divisor are at least one divisor apart, used for uniqueness |
| `Searches.TruncDivIsNotFloor` | src/utils.py:243 | `int(-1 / 3)` is 0 where floor division gives -1 |
| `Searches.GetRemainingSearches` | src/utils.py:223-249 | (0, 0) when "pcSearch" is absent; IndexError when it has fewer than 2 entries; the mobile count is 0 on Level1; it fails iff pcSearch is short or, above Level1, "mobileSearch" is missing or empty |
| `Searches.RemainingSearchesMeaning` | src/utils.py:229-248 | each count is the number of whole p-point searches in the missing points (truncated toward zero); p is 1, 3 or 5 and is the same for desktop and mobile |

## Left out

- `waitUntilVisible` and `waitUntilClickable` (src/utils.py:25-33) are thin wrappers over Selenium's `WebDriverWait`, which is not part of this model.
- `waitUntilQuestionRefresh` and `waitUntilQuizLoads` only call `waitForMSRewardElement` with fixed selectors. The selector does not change the loop, so they add nothing.
- `resetTabs`, `switchToNewTab`, `closeCurrentTab` and `visitNewTab` manage window handles. Their meaning depends entirely on the driver's handle list.
- `tryDismissCookieBanner` and `tryDismissBingCookieBanner` are best-effort clicks with every error suppressed. Inside `goHome` they are treated as no-ops.
- `getDashboardData` and `getAccountPoints` evaluate an in-page script. The dashboard value is a parameter of `GetRemainingSearches` instead.
- `getBingInfo`, `checkBingLogin` and `getBingAccountPoints` are HTTP calls with cookies and JSON (network I/O).
- `formatNumber` is locale-dependent float formatting; `randomSeconds` draws random floats.
- `getBrowserConfig` and `saveBrowserConfig` are JSON file I/O.
- The locale setup in `__init__` is not modelled. No `time.sleep` is performed; the pollers count their sleeps.
- `WaitForMSRewardElement`, `WaitUntilJS`: `refresh()` is assumed not to raise. In the source its error escapes both pollers (src/utils.py:53 runs inside the `except` handler, line 84 outside any `try`), so neither model captures a run that ends in a failed refresh.
- `GoHome`: the initial `get(BASE_URL)` is not recorded. Driver calls other than the marker lookup (`current_url`, `get`, `refresh`) are assumed not to raise. BASE_URL's hostname is a parameter, since the constants module is not part of this model.
- `GoHome`: sleeps are not recorded. Each `Step` without the marker stands for one `interval` sleep (src/utils.py:127), and each `renavigated` step for one more 1-second sleep (line 125). The cookie banner's sleep (line 200) is not modelled, since the banner is a no-op here.
- `GoHome`: Python's `goHome` returns nothing. The `steps` record is the model's view of the driver traffic, not a return value.
- `ParseHex` models `int(s, 16)` only on the at most two characters `key[-2:]` can hold. Whitespace is limited to ASCII, and the non-ASCII decimal digits that Python's `int` also accepts are not modelled.
- `CodePointSum` sums Dafny characters, which are Unicode scalar values. Lone surrogates, which a Python `str` may hold, are not modelled.
- `GetRemainingSearches`: the dashboard always has `userStatus`, `counters` and `levelInfo`, and its counters are integers. The KeyErrors and TypeErrors of a malformed dashboard are not modelled.
- `TruncDiv`: Python divides in floating point before truncating. Rounding on totals beyond 2^53 is not modelled.
