# Selenium Grid scaler: demand calculator and metadata parser

This project models the core of the KEDA Selenium Grid scaler
(`pkg/scalers/selenium_grid_scaler.go`). The scaler reads a snapshot of a browser grid's status
and turns it into one integer: how many worker nodes the configured browser needs.

- **Demand calculator** (`getCountFromSeleniumResponse`). It decodes the status answer. It then
  scans the queued session requests and the active sessions and counts those whose capability
  matches the target `(browserName, browserVersion)`. Queued requests use a strict rule and
  active sessions a looser one. Entries whose capability string does not decode are skipped.
  Finally the count is turned into nodes by ceiling division by the grid's `maxSession`, when that
  is positive. The scaler is active when the result is positive.
- **Metadata parser** (`parseSeleniumGridScalerMetadata`). It requires `url` and `browserName`. An
  absent or empty `browserVersion` becomes the sentinel `"latest"`. An `unsafeSsl` value that is not
  a boolean is rejected. `targetValue` is always 1.

Files:
- `wrappers.dfy`: `Option` and `Result`.
- `counting.dfy`: `Count(s, p)`, the number of elements of a sequence that satisfy a predicate.
  Its lemmas cover concatenation, the length bound, positivity and removing an uncounted element.
- `selenium_grid.dfy`: the data types (`Capability`, `SeleniumSession`, `Grid`, `Snapshot`), the
  constant `DefaultBrowserVersion` and the two match rules. It also holds the specification functions
  `RawCount`, `Normalize` and `Demand`, the method `GetCountFromSeleniumResponse` with its two loops,
  `IsActive`, and the as-written 64-bit normalisation.
- `selenium_grid_properties.dfy`: lemmas about the calculator.
- `selenium_grid_metadata.dfy`: the metadata parser as a method that fills the record field by field.

The JSON decoder, the per-entry capability decoder and `strconv.ParseBool` are library calls. They
appear as function-typed parameters (`decodeResponse`, `decode`, `parseBool`). `None` stands for a
decoding error. Go's `strings.HasPrefix(s, p)` is the predicate `HasPrefix(s, p)`: `p` is an
initial segment of `s`.

Two details of the code decide the match and the normalisation:
- `strings.HasPrefix(capability.BrowserVersion, browserVersion)` (lines 222 and 238) makes the
  target a prefix of the entry's version, so target `"96"` matches entry `"96.0.1"`.
- Any `maxSession <= 0`, negative values included, returns the raw count (line 251).

## Model

| member | source | states |
|---|---|---|
| `SeleniumGrid.GetCountFromSeleniumResponse` | pkg/scalers/selenium_grid_scaler.go:209-256 | If the body does not decode, the result is the error. Otherwise it is `Demand` of the decoded snapshot: the queued-request loop and the session loop each count the matching entries of the prefix scanned so far, skip undecodable entries, and the total is normalised |
| `SeleniumGrid.Normalize` | pkg/scalers/selenium_grid_scaler.go:249-253 | For `maxSession > 0` the result is the ceiling of count / maxSession (`(r-1)*m < count <= r*m`) and equals the source's `(count + m - 1) / m`. For `maxSession <= 0` it is the count unchanged. It is 0 exactly when the count is 0, and never larger than the count |
| `SeleniumGrid.IsActive` | pkg/scalers/selenium_grid_scaler.go:164-171 | A failed count (any error of the fetch or of the calculator) is passed on as that error. Otherwise the scaler is active exactly when the count is `> 0` |
| `SeleniumGrid.QueueMatches` | pkg/scalers/selenium_grid_scaler.go:221-226 | The queued-request rule: same name, and the target version is a prefix of the entry's, or the entry has no version and the target is `"latest"`. Any capability matching it also matches the session rule. A version-less capability matches exactly when the names agree and the target is `"latest"` (or empty, which the metadata parser never produces) |
| `SeleniumGrid.SessionMatches` | pkg/scalers/selenium_grid_scaler.go:237-242 | The looser session rule: same name, and the target version is a prefix of the entry's, or the target is `"latest"`. With target `"latest"` the name alone decides; a different name never matches |
| `SeleniumGrid.NormalizeAsWritten` | pkg/scalers/selenium_grid_scaler.go:249-253 | The source's expression in 64-bit arithmetic, with wrap-around and Go's truncating division. For a positive capacity the result is a 64-bit value, and it equals `(count + m - 1) / m` whenever that sum does not wrap around. For capacity `<= 0` it is the count unchanged |
| `SeleniumGridProperties.SessionOnlyMatch` | pkg/scalers/selenium_grid_scaler.go:218-243 | A capability matches as a session but not as a queued request if and only if its name is the target's, the target version is `"latest"`, and its own version is non-empty and does not start with the target |
| `SeleniumGridProperties.PrefixMatchExample` | pkg/scalers/selenium_grid_scaler.go:222 | Version `"96.0.4664.45"` matches target `"96"` by both rules and target `"97"` by neither |
| `SeleniumGridProperties.LatestTargetAsymmetry` | pkg/scalers/selenium_grid_scaler.go:237-241 | With target `"latest"`, version `"96.0"` matches as an active session but not as a queued request |
| `SeleniumGridProperties.UndecodableQueuedRequestIgnored` | pkg/scalers/selenium_grid_scaler.go:218-231 | Removing a queued request whose capability does not decode changes neither the raw count nor the demand |
| `SeleniumGridProperties.UndecodableSessionIgnored` | pkg/scalers/selenium_grid_scaler.go:234-247 | Removing an active session whose capability does not decode changes neither the raw count nor the demand |
| `SeleniumGridProperties.CountBounds` | pkg/scalers/selenium_grid_scaler.go:210-253 | The raw count is at most the number of queued requests plus sessions, and the demand is at most the raw count |
| `SeleniumGridProperties.EmptySnapshotNoDemand` | pkg/scalers/selenium_grid_scaler.go:210-255 | With no queued requests and no sessions the demand is 0 for every target and node capacity |
| `SeleniumGridProperties.ActiveIffSomeEntryMatches` | pkg/scalers/selenium_grid_scaler.go:164-171 | The demand is positive, and `IsActive` yields true, if and only if some queued request or active session matches the target |
| `SeleniumGridProperties.WorkedExample` | pkg/scalers/selenium_grid_scaler.go:217-255 | Three version-less chrome requests and one chrome session on `"96.0"`, with target `"latest"`, give raw count 4. That is 2 nodes with `maxSession` 2, and 4 with `maxSession` 0 |
| `SeleniumGridProperties.NormalizeAsWrittenOverflows` | pkg/scalers/selenium_grid_scaler.go:252 | In 64-bit arithmetic, count 2 with `maxSession` = 2^63-1 gives -1. The corrected normalisation gives 1 |
| `SeleniumGridProperties.NormalizeAgreesWithoutOverflow` | pkg/scalers/selenium_grid_scaler.go:249-253 | Whenever `count + maxSession - 1` fits in 64 bits, the as-written and the corrected normalisation agree |
| `SeleniumGridProperties.NormalizeFitsInt64` | pkg/scalers/selenium_grid_scaler.go:249-253 | For 64-bit inputs the corrected normalisation is a 64-bit value, and evaluating its quotient, remainder and rounding-up step in 64-bit arithmetic never wraps around and gives the same result |
| `SeleniumGridMetadata.ParseSeleniumGridScalerMetadata` | pkg/scalers/selenium_grid_scaler.go:95-128 | Parsing succeeds if and only if `url` and `browserName` are present and any `unsafeSsl` parses. Errors are reported in the source's order (url, browserName, unsafeSsl). On success the url, name and scaler index are copied, `targetValue` is 1, `unsafeSsl` is the parsed value or false, and `browserVersion` is the given non-empty value or `"latest"`, so it is never empty |

## Left out

- `getSessionsCount` (lines 173-207): it builds the HTTP request, calls `client.Do`, checks the status code and reads the body. This is network I/O under a cancellation context. The model starts from the body bytes.
- `NewSeleniumGridScaler`, `Close`, `GetMetricTargetType` and `kedautil.CreateHTTPClient`: construction and wrappers around code that is not part of this model.
- `GetMetrics` and `GetMetricSpecForScaling`: Kubernetes metric types, `metav1.Now()` timestamps, `NormalizeString` and `GenerateMetricNameWithIndex` are not part of this model.
- The JSON decoding (lines 213, 220, 236) and `strconv.ParseBool` (line 119) are library code. They are parameters of the model, so the model holds for every decoder. Go's JSON defaults for missing fields are the decoder's business.
- The nested response records `seleniumResponse`, `data` and `sessionsInfo` are folded into one `Snapshot` value holding the `Grid`, the request strings and the sessions.
- `SeleniumGrid.GetCountFromSeleniumResponse`: when the body does not decode, the source returns `0` together with the error. The model returns only the error, because every caller discards the value.
- `SeleniumGrid.IsActive`: on an error the source returns `false` together with the error. The model returns only the error, because every caller discards the value.
- `SeleniumGrid.GetCountFromSeleniumResponse`: the `count++` increments use unbounded integers. A count is at most the number of entries in the answer, far below 2^63, so no wrap-around is possible.
- `SeleniumGrid.GetCountFromSeleniumResponse`: the final division uses the corrected, overflow-free `Normalize` (see Findings). The source's expression is modelled as `NormalizeAsWritten`.
- Error messages, and logging through `seleniumGridLog.Error`, are side effects with no effect on the result. Errors are modelled as constructors: `UndecodableResponse`, `NoUrl`, `NoBrowserName` and `InvalidUnsafeSsl`; the last carries the offending value.
- Go strings are byte strings. The model compares strings as sequences of characters, which gives the same equality and prefix results on valid UTF-8 text.

## Findings

| source | as written | input that shows it | evidently intended | confidence | as-written member | corrected member |
|---|---|---|---|---|---|---|
| pkg/scalers/selenium_grid_scaler.go:252 | `count = (count + gridMaxSession - 1) / gridMaxSession` in `int64`; the sum wraps around when `gridMaxSession` is within `count - 1` of 2^63-1 | `count` = 2, `maxSession` = 9223372036854775807: the sum wraps to -2^63 and the result is -1 | the ceiling of count / maxSession, here 1 | not executed | `SeleniumGridProperties.NormalizeAsWrittenOverflows` (on `SeleniumGrid.NormalizeAsWritten`) | `SeleniumGrid.Normalize` |
