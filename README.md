# stockWatcher core, modelled in Dafny

stockWatcher polls one market index (for example `sh000001`, the Shanghai
Composite) at a fixed interval. On every tick it compares the new snapshot with
the state it keeps. When the move against the previous close reaches the
configured threshold, it pushes an alert to a chat webhook. Alerts only go out
on weekdays between 14:30 and 15:00, and a dedup rule holds back repeats
within five minutes.

This project models four parts of that system and proves properties about them:

- `Monitor` (internal/monitor/monitor.go): the per-tick state machine.
  `Tick` is a pure function over a `MonitorState`. The class
  `StockMonitor` updates its fields step by step, and `CheckStock` is proved
  to take them to the state `Tick` describes. `SendAlert` applies the window
  gate, then the dedup gate, then the notifier's reported outcome.
- `MonitorRuns`: `Run` folds `Tick` over a sequence of ticks, which is what the
  polling loop does. The lemmas here cover invariants over many ticks, plus the
  end-to-end alert scenarios as concrete lemmas.
- `Fetcher` (internal/monitor/fetcher.go): parsing of the Sina quote reply
  (`name="f0,f1,...";`), the field parser, the percentage change, the
  code-to-name table, the unchanged API code, the synthetic fallback snapshot,
  and the rule that fetching never fails. `Strings` gives the behaviour of the
  Go `strings` functions the parser relies on (`Split`, `Trim`, `HasPrefix`,
  `Replace` with n = 1).
- `Config` (internal/config/config.go): validation, defaults, and the order
  `Load` applies them in.
- `Stock` (internal/models/stock.go): the snapshot record, `ChangePercent` and
  `IsSignificantChange`.

Modelling choices:

- `float64` is `real`.
- Timestamps are whole Unix seconds, so five minutes is 300.
- `time.Duration` is an `int` of nanoseconds.
- A zero `time.Time` and a nil pointer are both `None`.
- Every read of the clock is a parameter: the snapshot time `now`, the
  weekday/hour/minute `Clock` of the alert window, and the minute and second
  the synthetic snapshot uses.
- `strconv.ParseFloat` is a parameter `parse: string -> Option<real>` whose
  behaviour is not interpreted.
- The HTTP GET is a parameter `get` from URL to the reply body, or `None` when
  the transport fails (then `RequestFailed`).
- The notifier's `Send` is a boolean outcome.
- Go's `%` truncates toward zero, so the fallback snapshot uses `GoRem`.

Where the code differs from its own comments, or decides something the
comments leave open, the model follows the code:

- The comment on `isWithinAlertWindow` (monitor.go:121, 133) gives 17:00 as the
  closing time, but the code closes the window at 15:00 (`IsWithinAlertWindow`).
  The clause `hour > 14 && hour < 15` can never hold.
- The comments at monitor.go:185 and 190 say an alert inside the five-minute
  cooldown still goes out if the move "keeps growing" by 0.2 points. They do
  not say whether the growth is measured from the last delivered alert or from
  the last tick. The code measures it from the change field of the previous
  tick's snapshot (monitor.go:186). So the dedup baseline is not the magnitude
  of the last alert. Lemma `DedupComparesWithPreviousTick` gives a tick that is
  0.3 points above the last alert and is still suppressed. `CreepIsSuppressed`
  shows that a move whose magnitude grows by less than 0.2 points from one
  snapshot to the next, upward or downward, never delivers an alert inside the
  cooldown, whatever the threshold, the clocks, the notifier or the failed
  fetches in between.
- The code accepts any threshold and only replaces exactly 0 with 0.8.
  `Defaulted` keeps a negative threshold, and for a threshold at or below 0,
  `IsSignificantChange` holds for every snapshot.

## Model

| member | source | states |
|---|---|---|
| Stock.Percent | internal/models/stock.go:22-27 | 0 for a zero base; otherwise the rate that, applied to the base, gives the value; for a positive base its sign is the direction |
| Stock.PercentUnique | internal/models/stock.go:22-27 | any rate that maps the base to the value is the one `Percent` returns |
| Stock.ChangePercent | internal/models/stock.go:22-27 | exactly 0 when the previous close is 0; otherwise previous·(1 + p/100) = current |
| Stock.IsSignificantChange | internal/models/stock.go:30-32 | for t ≥ 0 it holds iff abs(ChangePercent) ≥ t; for t ≤ 0 it always holds |
| Strings.Split | internal/monitor/fetcher.go:76 | one piece more than there are separators, and no piece holds the separator |
| Strings.JoinSplit | internal/monitor/fetcher.go:85 | joining the pieces of a split gives back the text |
| Strings.SplitJoin | internal/monitor/fetcher.go:85 | splitting a join of separator-free pieces gives back the pieces |
| Strings.SplitAtFirst | internal/monitor/fetcher.go:76-81 | the first piece is the text before the first separator, and the rest splits independently |
| Strings.Trim | internal/monitor/fetcher.go:82 | the result is an infix whose stripped prefix and suffix are all cut characters and whose own ends are not |
| Strings.TrimLeft | internal/monitor/fetcher.go:82 | the left half of `strings.Trim`: a suffix of the text, starting at a non-cut character, with only cut characters removed |
| Strings.TrimRight | internal/monitor/fetcher.go:82 | the right half of `strings.Trim`: a prefix of the text, ending at a non-cut character, with only cut characters removed |
| Strings.TrimPadded | internal/monitor/fetcher.go:82 | padding made only of cut characters around a non-empty body whose first and last characters are not cut characters is removed, and the body is kept |
| Strings.HasPrefix | internal/monitor/fetcher.go:143-145 | `strings.HasPrefix`: true iff the text begins, character by character, with the prefix |
| Strings.FirstIndex | internal/monitor/fetcher.go:144-146 | for a non-empty target, the position where `strings.Replace` with n = 1 replaces: an occurrence of the target, with none earlier; `None` iff the target does not occur |
| Strings.ReplaceFirst | internal/monitor/fetcher.go:144-146 | for a non-empty `t` (both call sites pass `"sh"` or `"sz"`), `strings.Replace(s, t, r, 1)`: the text unchanged when `t` does not occur, otherwise `t` replaced by `r` at its first occurrence; for `t` replaced by itself, see `ReplaceFirstSelf` |
| Strings.ReplaceFirstSelf | internal/monitor/fetcher.go:143-147 | replacing the first occurrence of a substring by itself leaves the text unchanged |
| Fetcher.GetStockName | internal/monitor/fetcher.go:176-187 | the table name for sh000001, sz399001 and sz399006; the code itself for any other code |
| Fetcher.ConvertCodeForAPI | internal/monitor/fetcher.go:142-149 | every code is returned unchanged |
| Fetcher.ParseFloat | internal/monitor/fetcher.go:152-161 | 0 for "", for "-" and for a token the float parser rejects; the parsed value otherwise |
| Fetcher.CalculateChange | internal/monitor/fetcher.go:164-173 | 0 when field 2 parses to 0; otherwise the rate taking field 2 to field 3 |
| Fetcher.QuoteFields | internal/monitor/fetcher.go:76-85 | the comma-separated fields of the trimmed segment after the first `=`; there is at least one |
| Fetcher.FromFields | internal/monitor/fetcher.go:86-108 | too-few-fields error iff fewer than 6 fields; open, previous, current, high and low come from fields 1 to 5 and field 0 is not read; a snapshot has the code, its name, the time, change = ChangePercent and changeAmt = current − previous |
| Fetcher.ParseQuote | internal/monitor/fetcher.go:70-108 | format error iff there is no `=`; the two-part error never happens; otherwise the result is that of the reply's fields |
| Fetcher.FetchFromSina | internal/monitor/fetcher.go:45-109 | the URL carries the code unchanged; a failed transport gives `RequestFailed`; a body is parsed by `ParseQuote` |
| Fetcher.GoRem | internal/monitor/fetcher.go:116-125 | Go's truncating remainder: a = q·b + r for some integer q, bounded by the divisor and with the sign of the dividend, which fixes r |
| Fetcher.FetchFromMock | internal/monitor/fetcher.go:112-139 | never an error; previous > 0, so change = ChangePercent; for a non-negative Unix time, high ≥ max(open, current) and low ≤ min(open, current) |
| Fetcher.FetchStockData | internal/monitor/fetcher.go:34-42 | never an error; the primary snapshot when it succeeds, the synthetic one otherwise; every snapshot's change equals its ChangePercent |
| Fetcher.ParseQuoteSegment | internal/monitor/fetcher.go:76-82 | only the text between the first and second `=` is read, trimmed; what follows a second `=` is ignored |
| Fetcher.SegmentAfterFirst | internal/monitor/fetcher.go:76-81 | the second `=`-piece is the text from the first `=` up to the next `=` or the end |
| Fetcher.ParseQuoteLayout | internal/monitor/fetcher.go:85-108 | a reply `name=` + padding + `f0,...,fn` + padding, where the name has no `=`, the padding is made of `"`, `;` and spaces, the fields avoid `,` and `=` and do not join to the empty text, and the first field does not start, and the last field does not end, with `"`, `;` or a space, parses exactly as `FromFields` of its field list (so with fewer than six fields it is `TooFewFields`) |
| Monitor.Initial | internal/monitor/monitor.go:29-36 | a new monitor has no snapshot and no alert time, and satisfies the invariant |
| Monitor.CalculateChangePercent | internal/monitor/monitor.go:114-119 | 0 for a zero base; otherwise the rate taking the base to the current value |
| Monitor.IsWithinAlertWindow | internal/monitor/monitor.go:122-139 | true iff Monday to Friday and either 14:xx with xx ≥ 30 or 15:00; for valid minutes, that is exactly the closed interval 14:30 to 15:00 |
| Monitor.ShouldSendAlert | internal/monitor/monitor.go:175-197 | allowed when no alert has been sent, or 300 s or more have passed; within 300 s, allowed iff abs(change) − abs(previous snapshot's change) ≥ 0.2 |
| Monitor.DirectionOf | internal/monitor/monitor.go:155-161 | up iff the change is positive |
| Monitor.AlertOutcome | internal/monitor/monitor.go:142-171 | outside the window iff the window gate fails; suppressed iff it passes and dedup fails; sent or failed according to the notifier; the direction follows the change's sign |
| Monitor.Tick | internal/monitor/monitor.go:69-111 | a fetch error changes nothing; the first snapshot sets dayStart = open and max = min = 0 and sends nothing; every snapshot replaces lastData; max only grows; an alert is considered iff abs(Change) ≥ threshold; the alert time moves only on a successful send, to the snapshot time; the invariant is kept |
| Monitor.StockMonitor.constructor | internal/monitor/monitor.go:29-36 | all fields at their zero values |
| Monitor.StockMonitor.CheckStock | internal/monitor/monitor.go:69-111 | the new fields and the outcome are those `Tick` gives for the old fields |
| Monitor.StockMonitor.SendAlert | internal/monitor/monitor.go:142-172 | the outcome is `AlertOutcome`; lastAlertTime becomes the snapshot time exactly when the send succeeded; no other field changes |
| MonitorRuns.Run | internal/monitor/monitor.go:47-57 | any number of ticks keeps the invariant |
| MonitorRuns.RunAppend | internal/monitor/monitor.go:50-57 | ticks run in two stretches equal ticks run in one |
| MonitorRuns.RunMaxChangeGrows | internal/monitor/monitor.go:83-99 | over any ticks, maxChange never decreases and minChange stays 0 |
| MonitorRuns.RunKeepsDayStart | internal/monitor/monitor.go:80-89 | once a snapshot is stored, dayStart never changes and a snapshot stays stored |
| MonitorRuns.RunFailedFetches | internal/monitor/monitor.go:70-74 | ticks whose fetches all fail leave the whole state unchanged |
| MonitorRuns.RunLastData | internal/monitor/monitor.go:110 | the stored snapshot is the last one fetched successfully |
| MonitorRuns.RunNoDeliveryKeepsAlertTime | internal/monitor/monitor.go:144-171 | over ticks where the window is closed or the send fails, the alert time does not move |
| MonitorRuns.RunAlertTimeFromSnapshot | internal/monitor/monitor.go:170 | a recorded alert time is the initial one or the capture time of a fetched snapshot |
| MonitorRuns.FetchedTicksNeverSkip | internal/monitor/monitor.go:70-74 | with the fetcher's result as input, a tick is never skipped |
| MonitorRuns.ThresholdIsSignificantChange | internal/monitor/monitor.go:102 | for a fetched snapshot, the threshold test on Change agrees with IsSignificantChange |
| MonitorRuns.ScenarioAlertSent | internal/monitor/monitor.go:80-111 | after a quiet first tick, a 1% move on Wednesday at 14:40 with threshold 0.8 is sent upward and sets the alert time |
| MonitorRuns.ScenarioOutsideWindow | internal/monitor/monitor.go:144-146 | the same move at 10:00 is not sent, and the stored snapshot still advances |
| MonitorRuns.ScenarioEscalation | internal/monitor/monitor.go:182-196 | inside the cooldown, a growth of 0.05 is suppressed and a later growth of 0.25 is sent |
| MonitorRuns.DedupComparesWithPreviousTick | internal/monitor/monitor.go:186 | a tick 0.3 points above the last alert is suppressed, because the tick before it was only 0.15 below |
| MonitorRuns.CreepIsSuppressed | internal/monitor/monitor.go:184-193 | for every threshold and every run of ticks (any clocks, notifier outcomes and failed fetches), when each fetched snapshot is captured less than 300 s after the last alert and its change magnitude exceeds that of the snapshot stored before it by less than 0.2 (upward or downward moves alike), the alert time never moves |
| Config.ValidateConfig | internal/config/config.go:81-98 | fails iff the code is empty, the webhook URL is empty or the interval is ≤ 0, and reports the first of these in that order |
| Config.Defaulted | internal/config/config.go:101-123 | only the name, threshold and interval change; an empty name takes the table name of a known code and stays empty otherwise; a zero threshold becomes 0.8; a zero interval becomes 30 s |
| Config.DefaultNamesMatchFetcher | internal/config/config.go:104-108 | the name table of `setDefaults` has the same three entries as the fetcher's table (internal/monitor/fetcher.go:177-186), so a defaulted name is what `getStockName` shows |
| Config.DefaultedIdempotent | internal/config/config.go:101-123 | applying the defaults twice is applying them once |
| Config.SetDefaults | internal/config/config.go:101-123 | the in-place updates produce `Defaulted` of the input |
| Config.Load | internal/config/config.go:15-46 | I/O errors pass through; an invalid configuration gives its validation error; a loaded configuration is the defaulted one and keeps its own positive interval, so the 30 s default never applies |

## Left out

- HTTP transport (internal/monitor/fetcher.go:47-67): building the request, its
  headers, the 10 s client timeout and reading the body. The model uses a `get`
  parameter instead.
- Bytes versus characters: `string(body)` (internal/monitor/fetcher.go:70) wraps
  raw reply bytes that need not be UTF-8, while `get` returns a sequence of
  characters. Nothing is lost: `=`, `,` and the cutset `"; ` are ASCII, so
  `Split` and `Trim` cut at the same places on bytes and on characters.
- internal/notifier/wechat.go as a whole: the JSON envelope, HTTP status
  handling and the error-code check. Only the success or failure of `Send`
  reaches the model.
- `Start`'s ticker and `select` loop, `Stop`, `isRunning`, the channel close,
  the mutex, and the goroutines of main.go and demo.go. `Stop` panics when
  called twice because it closes the channel twice, and that is not modelled.
  `Run` models the loop only as a sequence of ticks.
- `formatAlertMessage` and all log output. Only the direction choice is
  modelled.
- IEEE-754 behaviour: rounding, NaN and infinities that `strconv.ParseFloat`
  accepts, and `math.Max`/`math.Min` on NaN. Comparisons with 0 are exact
  on `real`.
- Individual clock reads. `fetchFromMock` calls `time.Now()` several times, and
  the model takes all those reads as one instant.
- Sub-second timestamp precision. The cooldown is compared in whole seconds.
- A snapshot whose timestamp equals Go's zero `time.Time`. Such a timestamp
  would make `IsZero` report that no alert was ever sent; the model treats
  every recorded alert time as `Some`.
- YAML parsing, the existence check for the configuration file,
  `createDefaultConfig` with its template text, and `Save`. `Load` receives
  their outcome as a `Result`.
- Fetcher.ParseQuote: the error values carry kinds, not the Go error message
  texts that quote the body.
