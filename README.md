# Holdings-tracking pipeline of trade-desk-newsletter, in Dafny

This project models the deterministic core of the newsletter pipeline and
proves properties of it:

- **Daily run** (`cmd/daily/main.go`). The tracking state (`models.State`) is a
  class holding three maps: holdings by day, first-seen dates and last-seen
  dates. A day is recorded in place. The previous day is the greatest date key
  before the insert. The two ticker lists are diffed into sorted `added` and
  `removed` lists. Convictions (tenure of at least 15 days) and quick flips
  (removed after at most 10 days) are selected, and the output path is derived.
- **Weekly run** (`cmd/weekly/main.go`). The window ends on the latest
  recorded day and starts six calendar days earlier. The radar is built from
  the diffs of consecutive recorded days over the whole history. Convictions
  and quick flips are selected, and the watchlist is the radar followed by the
  quick flips.
- **`tenorDays`**. Both commands use it. It is modelled once, on integer day
  numbers: `time.Parse("2006-01-02")` is a parse function, and days-from-civil
  gives the day numbers. The float computation `int(hours/24 + 0.5)` is modelled
  exactly: it truncates toward zero and `time.Duration` saturates.
- **Holdings summary** (`tools/scrape-ulty.mjs`, `extractDataFromCSV`). The
  date and ticker columns are chosen by case-insensitive substring. Single-token
  tickers are kept, trimmed and de-duplicated in order of first appearance. The
  latest date is a running maximum under an abstract `later` order. The
  dividend-yield fallback is modelled too.
- **Mail body** (`pkg/mailer/resend.go`). `templateEscape` escapes `&`, `<` and
  `>`, the result is wrapped in `<pre>`, and the request is refused when the
  mail settings are missing.
- **Substack posting** (`scripts/post-substack.mjs`). The settings have
  defaults, and the title comes from the report's file name. The editor steps
  are recorded as a trace of actions. Control visibility is a boolean input.

Modules, one per file: `Wrappers`, `Strings` (Go string order, sorting, small
string functions), `Dates`, `Holdings` (the state, `diff`, `prevDateKey`),
`Daily`, `Weekly`, `Scrape`, `Mailer`, `PostSubstack`.

Go compares strings byte by byte. On UTF-8 text that is the order of code
points, which is how `Strings.Less` is defined. Go map iteration order is
unspecified. Outputs built by ranging over a map (convictions, quick flips and
the loops inside `diff`) are therefore specified by their members and by
distinctness, not by their order.

A behaviour of the source worth knowing: `prevDateKey` ignores its `today`
argument (cmd/daily/main.go:118-128). The "previous" day is the latest
recorded day, even when that is today itself (a second run on the same day)
or a later day (a back-filled date). `Daily.RerunOfLatestDay` shows the
consequence: re-recording the latest day's list reports no change.

## Model

| member | source | states |
|---|---|---|
| Strings.LessIrreflexive | cmd/daily/main.go:151-152 | Go's string `<` never holds between a string and itself |
| Strings.LessTransitive | cmd/daily/main.go:151-152 | Go's string `<` is transitive |
| Strings.LessTotal | cmd/daily/main.go:151-152 | any two different strings are ordered one way or the other |
| Strings.LessAsymmetric | cmd/daily/main.go:151-152 | `a < b` excludes `b < a` |
| Strings.StrictlySortedUnique | cmd/daily/main.go:151-153 | two ascending, duplicate-free lists with the same members are the same list, so a sorted set difference is unique |
| Strings.Insert | cmd/daily/main.go:151-152 | inserting into a list adds exactly that one element (multiset) |
| Strings.InsertKeepsOrder | cmd/daily/main.go:151-152 | insertion keeps an ascending list ascending, and strictly so for a new element |
| Strings.SortStrings | cmd/daily/main.go:151-152 | `sort.Strings`: the result is ascending and a permutation of the input, and strictly ascending when the input has no duplicates |
| Strings.ReplaceChar | cmd/daily/main.go:102 | `strings.ReplaceAll` with one-character strings: same length, each occurrence of the old character replaced, every other character kept |
| Strings.ReplaceCharRemoves | cmd/daily/main.go:102 | after the replacement no '/' is left, and a text without '/' is unchanged |
| Strings.LowerChar | tools/scrape-ulty.mjs:31-32 | `toLowerCase` of one character: 'A'..'Z' to 'a'..'z', the Kelvin sign to 'k', U+0130 to 'i' + U+0307, every other character kept |
| Strings.Lower | tools/scrape-ulty.mjs:31-32 | on text without the Kelvin sign or U+0130, the length is kept and each position is lowered as an ASCII letter or kept |
| Strings.LowerIsWord | scripts/post-substack.mjs:13-14 | a text lower-cases to a word of ASCII letters other than 'i' and 'k' exactly when it spells that word letter by letter, each letter in either case |
| Dates.DaysIn | cmd/daily/main.go:158-159 | month lengths 28..31; February has 29 days exactly in Gregorian leap years |
| Dates.ParseDate | cmd/daily/main.go:158-161 | `time.Parse("2006-01-02", s)` succeeds only on 4-digit year, '-', 2-digit month, '-', 2-digit day, with a month 1..12 and a day that exists in that month |
| Dates.ParseFormatRoundTrip | cmd/weekly/main.go:42-44 | formatting a valid date of years 0..9999 and parsing the text gives the date back |
| Dates.FormatParseRoundTrip | cmd/weekly/main.go:42-44 | parsing a text and formatting the date gives the same text back |
| Dates.ParseOrZero | cmd/weekly/main.go:42 | a failed parse leaves the zero time 0001-01-01; a successful one gives the parsed date |
| Dates.MarchToMarch | cmd/daily/main.go:163 | consecutive March 1sts are 365 or 366 days apart, 366 exactly when the following February is a leap February |
| Dates.EndOfFebruary | cmd/daily/main.go:163 | the last day of February is directly followed by March 1st |
| Dates.DaysBefore | cmd/weekly/main.go:43 | `AddDate(0, 0, -n)` as n steps of `PrevDay`: always a valid date, whose day number DaysBeforeIsNDaysEarlier pins to n less |
| Dates.DaysBeforeWithinYear | cmd/weekly/main.go:43 | stepping back fewer days than the date's position in its year stays in that year, at the position n smaller |
| Dates.DaysBeforeIntoPriorYear | cmd/weekly/main.go:43 | stepping back at least the date's position in its year lands in an earlier year |
| Dates.FormatDate | cmd/weekly/main.go:44 | `Format("2006-01-02")` gives text of the layout's shape exactly for years 0..9999 (a '-' sign or a fifth digit otherwise) |
| Dates.PrevDay | cmd/weekly/main.go:43 | the day before a valid date is valid, and the year changes only from January 1st to December 31st |
| Dates.PrevDayIsOneDayEarlier | cmd/weekly/main.go:43 | the previous day is exactly one day number earlier |
| Dates.DaysBeforeIsNDaysEarlier | cmd/weekly/main.go:43 | `AddDate(0, 0, -n)` lands exactly n day numbers earlier |
| Dates.DaysBeforeNearYear | cmd/weekly/main.go:43 | going back at most 28 days drops the year by at most one, and then lands in late December |
| Dates.RoundedDays | cmd/daily/main.go:163 | `int(d.Hours()/24 + 0.5)`: `n + 0.5` truncated toward zero within the Duration range, saturated at 106752 / -106751 days beyond it |
| Dates.TenorDays | cmd/daily/main.go:156-164 | the result lies in the Duration range; it is 0 when either date fails to parse, and 0 for equal dates |
| Dates.TenorDaysForward | cmd/daily/main.go:163 | for a forward span the result is the exact number of days |
| Dates.TenorDaysBackward | cmd/daily/main.go:163 | for a backward span truncation toward zero gives the span plus one |
| Holdings.Get | cmd/daily/main.go:79-80 | a missing key reads as the empty string (Go's zero value) |
| Holdings.HoldingsOn | cmd/daily/main.go:41 | a missing day reads as the empty list |
| Holdings.HasLeast | cmd/daily/main.go:119-123 | a non-empty set of keys has a least element, which `Ordered` puts first |
| Holdings.HasGreatest | cmd/daily/main.go:118-128 | a non-empty set of keys has a greatest element |
| Holdings.GreatestUnique | cmd/daily/main.go:118-128 | the greatest key is unique |
| Holdings.Ordered | cmd/daily/main.go:119-123 | the keys of a set, strictly ascending, with exactly the members of the set |
| Holdings.LatestKey | cmd/daily/main.go:118-128 | "" for no keys, otherwise a key that every key is at most |
| Holdings.AddedTickers | cmd/daily/main.go:130-154 | the tickers of today not in prev, each once, ascending |
| Holdings.RemovedTickers | cmd/daily/main.go:130-154 | the tickers of prev not in today, each once, ascending |
| Holdings.DiffOfSameList | cmd/daily/main.go:130-154 | `diff(x, x)` is two empty lists |
| Holdings.IsOrdered | cmd/daily/main.go:151-153 | an ascending duplicate-free list with given members is the reference ordering |
| Holdings.Diff | cmd/daily/main.go:130-154 | `added` is exactly today minus prev and `removed` exactly prev minus today, both strictly ascending |
| Holdings.SortedKeys | cmd/daily/main.go:119-123 | the map's keys, each once, ascending |
| Holdings.State.Empty | pkg/state/state.go:19-25 | a missing state file loads as three empty maps |
| Holdings.State.RecordDay | cmd/daily/main.go:44-51 | today's entry becomes the payload list; first-seen and last-seen become the recorded-day functions of their old values |
| Holdings.FirstSeenOneMore | cmd/daily/main.go:46-49 | recording one more ticker sets its first-seen date only when it has none |
| Holdings.LastSeenOneMore | cmd/daily/main.go:50 | recording one more ticker moves its last-seen date to today |
| Holdings.FirstSeenNeverOverwritten | cmd/daily/main.go:46-49 | existing first-seen dates are kept, and the new entries are exactly today's new tickers, dated today |
| Holdings.LastSeenMovesToToday | cmd/daily/main.go:50 | every listed ticker is last seen today; any other ticker keeps its entry or its absence |
| Holdings.RecordDayIdempotent | cmd/daily/main.go:44-51 | recording the same list on the same day twice changes nothing the second time |
| Holdings.LastOfOrderedIsLatest | cmd/weekly/main.go:30-39 | the last of the sorted keys is the greatest key |
| Holdings.PrevDateKey | cmd/daily/main.go:118-128 | "" for an empty history, otherwise the greatest recorded key, whether or not it equals today |
| Daily.Convictions | cmd/daily/main.go:63-74 | exactly the first-seen tickers that have a last-seen date and a tenure of at least 15 days, each once |
| Daily.FlipsAmongMembers | cmd/daily/main.go:76-85 | a quick flip is exactly a removed ticker with a tenure of at most 10 days; a missing date counts 0 days |
| Daily.QuickFlips | cmd/daily/main.go:76-85 | the quick-flip loop yields the quick flips among `removed`, in the order of `removed` |
| Daily.DailyOutPath | cmd/daily/main.go:102-103 | `out/daily-<date>.md`, with no '/' after the directory; a date without '/' appears unchanged |
| Daily.Run | cmd/daily/main.go:36-94 | the state is updated before the diff is checked; no report exactly when nothing was added or removed against the latest earlier day; otherwise each report field is its specification |
| Daily.RemovedKeepTheirDates | cmd/daily/main.go:44-51 | recording today leaves the first- and last-seen dates of removed tickers untouched |
| Daily.RerunOfLatestDay | cmd/daily/main.go:40-41 | when today is already the latest day with the same list, the diff is empty |
| Weekly.WeekStart | cmd/weekly/main.go:42-44 | the latest key parsed (the zero time when it does not parse), moved six calendar days back and formatted; its properties are the three lemmas below |
| Weekly.WeekStartSixDaysBefore | cmd/weekly/main.go:41-44 | for every parsable latest date except 0000-01-01 .. 0000-01-06 the window start parses to a date exactly six days earlier, so `tenorDays(weekStart, weekEnd)` is 6 |
| Weekly.WeekStartOfFirstDays | cmd/weekly/main.go:42-44 | for 0000-01-01 .. 0000-01-06 the window start is in year -1 and does not parse back |
| Weekly.WeekStartOfUnparsable | cmd/weekly/main.go:42-44 | an unparsable latest key gives the window start "0000-12-26" (six days before the zero time) |
| Weekly.Notes | cmd/weekly/main.go:53-58 | one radar row per ticker, in order, each with the given note |
| Weekly.NotesMembers | cmd/weekly/main.go:53-58 | a row is among the notes exactly when it has that note and a listed ticker |
| Weekly.PairRadarMembers | cmd/weekly/main.go:50-58 | one pair of days contributes exactly the surfaced and the rotated-out tickers |
| Weekly.RadarMembers | cmd/weekly/main.go:48-59 | a row is on the radar exactly when its ticker surfaced or rotated out, by its note, between two consecutive recorded days |
| Weekly.RadarWithSound | cmd/weekly/main.go:48-59 | every row collected over consecutive pairs of days comes from one of those pairs |
| Weekly.RadarWithComplete | cmd/weekly/main.go:48-59 | every row of every consecutive pair of days is collected |
| Weekly.RadarWithStep | cmd/weekly/main.go:49-58 | collecting one more day appends the last pair's rows after the earlier ones |
| Weekly.RadarOfStep | cmd/weekly/main.go:49-58 | each further recorded day appends that pair's rows after the earlier ones |
| Weekly.Radar | cmd/weekly/main.go:48-59 | the radar loop yields the radar of all consecutive pairs, pairs in date order |
| Weekly.ConvictionsAgree | cmd/weekly/main.go:62-69 | the weekly test (no presence check on last-seen) selects the same convictions as the daily one |
| Weekly.Convictions | cmd/weekly/main.go:62-69 | exactly the first-seen tickers with a tenure of at least 15 days, each once |
| Weekly.QuickFlips | cmd/weekly/main.go:72-79 | exactly the first-seen tickers last seen (as a string) before the latest day with a tenure of at most 10, each once |
| Weekly.Watchlist | cmd/weekly/main.go:85-91 | the radar rows in order with the note as reason, then the quick flips with "recent quick flip"; length is the sum |
| Weekly.WeeklyOutPath | cmd/weekly/main.go:110-111 | `out/weekly-<weekEnd>.md`, with no '/' after the directory |
| Weekly.Run | cmd/weekly/main.go:29-102 | no report exactly for an empty history; otherwise the window ends on the latest key, every report field is its specification, and convictions and quick flips list each ticker once |
| Scrape.TrimLeft | tools/scrape-ulty.mjs:39 | a suffix of the text; only white space was dropped, and the result does not start with white space |
| Scrape.TrimRight | tools/scrape-ulty.mjs:39 | a prefix of the text; only white space was dropped, and the result does not end with white space |
| Scrape.Trim | tools/scrape-ulty.mjs:39 | `trim()`: a slice of the text with only white space around it, neither starting nor ending with white space |
| Scrape.TrimmedSpaceThenToken | tools/scrape-ulty.mjs:39 | on trimmed text `/\s+\S+/` matches exactly when the text contains white space |
| Scrape.KeptTicker | tools/scrape-ulty.mjs:39 | a cell is kept exactly when it is present, non-empty and its trimmed text has no white space; the trimmed text is kept |
| Scrape.Lookup | tools/scrape-ulty.mjs:37-38 | the cell of a column with that header, or none exactly when no column has it |
| Scrape.LookupLastColumn | tools/scrape-ulty.mjs:37-38 | the cell found is that of the last column with the header (the row object keeps the last assignment) |
| Scrape.Headers | tools/scrape-ulty.mjs:30 | the headers of the first row, in column order |
| Scrape.FindHeader | tools/scrape-ulty.mjs:31-32 | the first header whose lower-case form contains the word, or none when no header does |
| Scrape.Summarize | tools/scrape-ulty.mjs:28-42 | "Empty CSV" exactly for no rows; "Missing Date/Ticker columns" exactly when either column is missing |
| Scrape.ExtractSummary | tools/scrape-ulty.mjs:28-42 | the aggregation loop yields the summary specification |
| Scrape.TickersOfMembers | tools/scrape-ulty.mjs:34-42 | no ticker is listed twice, and exactly the kept cells are listed |
| Scrape.KeptCellsAreTokens | tools/scrape-ulty.mjs:39 | every listed ticker is a single token (no white space) |
| Scrape.TickersOfPrefix | tools/scrape-ulty.mjs:34-42 | the list after the leading rows is a prefix of the final list: order of first appearance |
| Scrape.LatestDateNone | tools/scrape-ulty.mjs:35-40 | the latest date stays null exactly when no row has a non-empty date |
| Scrape.LatestDateFromRows | tools/scrape-ulty.mjs:40 | the latest date is the non-empty date cell of some row, whether or not that row's ticker was kept |
| Scrape.LatestDateIsMaximal | tools/scrape-ulty.mjs:40 | for a strict order, no date cell is later than the result |
| Scrape.LatestDateFirstOfLatest | tools/scrape-ulty.mjs:40 | for a strict weak order, ties keep the earlier row: the result is the date of a row that is strictly later than every earlier dated row, with no later row later than it |
| Scrape.ExampleRows | tools/scrape-ulty.mjs:28-42 | the rows (2024-01-01, AAPL), (2024-02-01, MSFT BONUS), (2024-01-15, aapl) give latest date 2024-02-01 and tickers [AAPL, aapl] |
| Scrape.YieldOf | tools/scrape-ulty.mjs:67-72 | the trimmed cell text, or "Not Found" when there is no cell or its text is empty |
| Mailer.EscapeChar | pkg/mailer/resend.go:54-61 | `&`, `<`, `>` become `&amp;`, `&lt;`, `&gt;`; every other character is copied |
| Mailer.EscapeConcat | pkg/mailer/resend.go:56-62 | escaping distributes over concatenation |
| Mailer.TemplateEscape | pkg/mailer/resend.go:53-64 | the loop yields the character-by-character escape of its input |
| Mailer.EscapeHasNoAngles | pkg/mailer/resend.go:54-62 | the escaped text contains no `<` and no `>` |
| Mailer.EscapePlainText | pkg/mailer/resend.go:56-62 | text without `&`, `<`, `>` is returned unchanged |
| Mailer.UnescapeStep | pkg/mailer/resend.go:54-61 | decoding undoes the escape of one character |
| Mailer.UnescapeEscape | pkg/mailer/resend.go:53-64 | decoding the escaped text gives the original back |
| Mailer.HtmlBody | pkg/mailer/resend.go:28-29 | the fixed `<pre ...>` opening tag, the escaped Markdown, then `</pre>` |
| Mailer.HtmlBodyContent | pkg/mailer/resend.go:28-29 | between the tags there is no angle bracket, and the content decodes back to the Markdown |
| Mailer.MailRequest | pkg/mailer/resend.go:19-36 | an error exactly when one of the three settings is empty or unset; otherwise the request carries the sender, the one recipient, the subject and the HTML body |
| Mailer.Setting | pkg/mailer/resend.go:19-21 | `os.Getenv`: the value, or "" when unset |
| PostSubstack.EnvOr | scripts/post-substack.mjs:6-11 | `env.X || fallback`: an unset or empty variable takes the fallback |
| PostSubstack.Headless | scripts/post-substack.mjs:13-14 | headless is off exactly when the variable is set to five characters spelling "false" in any mix of letter case; any other value, unset or empty means headless |
| PostSubstack.DefaultStatePath | scripts/post-substack.mjs:6-8 | `path.join(ROOT, 'secrets', 'substack_state.json')`: the working directory, one '/', then "secrets/substack_state.json" |
| PostSubstack.StatePathBasename | scripts/post-substack.mjs:6-8 | the default state file is named "substack_state.json" whatever the working directory |
| PostSubstack.LoadConfig | scripts/post-substack.mjs:6-14 | the state path is the variable when set and non-empty, else the default path; the mode is publish only when set to "publish"; mode and prefix default to "draft" and "In Play — "; headless as `Headless` |
| PostSubstack.StripTrailingSlashes | scripts/post-substack.mjs:23 | the path with its trailing slashes removed |
| PostSubstack.AfterLastSlash | scripts/post-substack.mjs:23 | the part after the last '/': a suffix with no '/' preceded by '/' or the start |
| PostSubstack.Basename | scripts/post-substack.mjs:23 | `path.basename` has no '/' |
| PostSubstack.StripMdSuffix | scripts/post-substack.mjs:23 | one trailing ".md" removed when present, the text unchanged otherwise |
| PostSubstack.StripDailyPrefix | scripts/post-substack.mjs:24 | one leading "daily-" removed when present, the text unchanged otherwise |
| PostSubstack.Title | scripts/post-substack.mjs:23-25 | the title is the prefix followed by a slash-free part of the file name (`path.basename` with ".md" and "daily-" removed) |
| PostSubstack.TitleOfDailyReport | scripts/post-substack.mjs:23-25 | a report at `<dir>/daily-<date>.md` is titled prefix + date |
| PostSubstack.ExampleTitle | scripts/post-substack.mjs:23-25 | `out/daily-2024-01-05.md` is titled "In Play — 2024-01-05" under the default prefix |
| PostSubstack.DoneMessage | scripts/post-substack.mjs:88-90 | the final line says "Published" whenever the mode is publish, even if publishing was abandoned, and "Draft created" otherwise |
| PostSubstack.AppendSend | scripts/post-substack.mjs:67-77 | a Send click appended after a Continue click keeps every Send after a Continue |
| PostSubstack.Edit | scripts/post-substack.mjs:43-90 | title first; subtitle filled exactly when visible; Continue clicked exactly in publish mode with Continue visible; Send exactly when Send is also visible, and only after Continue; the missing-Continue warning exactly in publish mode without Continue, the missing-Send warning exactly when Continue was clicked without Send; the final line is the done message |
| PostSubstack.Post | scripts/post-substack.mjs:17-90 | the exit status is 0 or 1; a missing argument or file gives the usage error and exit 1 before any browser step; otherwise exit 0, the browser is launched with the settings and the editor steps follow |

## Left out

- Reading and writing files (`data/rotations.json`, `data/state.json`, the
  reports), JSON, `godotenv` and `MkdirAll` are not modelled. The runs take the
  loaded data and return the report data and the output path. The one `Load`
  case that matters, a missing file giving empty maps, is `State.Empty`.
- Template rendering (`pkg/render/render.go`) and the Go commands' console
  output are not modelled. The posting script's console lines are recorded
  as `Log`, `Warn` and `Fail` actions in its trace. The Sector Pulse list of the weekly report is an always-empty stub
  with no behaviour.
- Network I/O is not modelled: the CSV download, the HTTP POST to the mail API
  and its status check.
- Browser automation is not modelled: navigation, locators, waits, typing, the
  download-link search and the yield cell lookup. A control's visibility and a
  cell's text are inputs, and browser steps are recorded actions. A browser
  error that ends the script with exit 1 is not modelled.
- CSV tokenisation by `csv-parser` is not modelled: rows arrive as (header,
  value) pairs.
- `Object.keys` lists integer-like keys first. Headers such as "1" would
  therefore be searched before the others; the model searches in column order.
- Strings.Lower: `toLowerCase` is modelled exactly on ASCII and on the
  non-ASCII characters whose lower case holds an ASCII letter: 'A'..'Z' map to
  'a'..'z', every other ASCII character ('a'..'z', digits, '-', ...) is kept,
  the Kelvin sign maps to 'k' and U+0130 to 'i' followed by U+0307. Every
  other non-ASCII character lower-cases to non-ASCII text in JavaScript and
  is kept as it is by `Strings.Lower`. The runs of ASCII characters in the
  two lower-cased texts are therefore the same, so tests against the ASCII
  words "false", "date" and "ticker" come out the same. The exact
  non-ASCII lower case is not modelled.
- A header repeated in the CSV is assumed to be assigned column by column
  into the row object (csv-parser's behaviour, which is not part of this
  model), so `Lookup` takes the last such column. `Object.keys` lists a
  repeated header once; `Headers` lists it at each column, which selects
  the same header name.
- JavaScript `new Date(...)` parsing and comparison is the parameter `later`.
  Its maximality property is proved for any transitive, irreflexive order;
  comparisons involving invalid dates (NaN) are always false, which is such an
  order.
- Scrape.LatestDateFirstOfLatest: stated for a strict weak order. With
  invalid dates mixed in, "not later" is not transitive (NaN is incomparable
  to everything), so the tie rule is not stated for such input.
- Go strings holding invalid UTF-8 are not modelled; strings are sequences of
  code points. `range` over invalid bytes would yield U+FFFD.
- Daily.Convictions, Weekly.Convictions, Weekly.QuickFlips: the order of the
  results is not specified, because Go's map iteration order is random; the
  contracts state the members and that no ticker repeats.
- Holdings.Diff: the order in which the set differences are collected is
  unspecified for the same reason, and only the sorted result is stated.
- The default subtitle date (`new Date().toISOString()`) is the parameter
  `today`. `process.cwd()` is the parameter `cwd`. `path.join` normalisation is
  modelled only for an absolute, normalised `cwd`.
- Dates.ParseFormatRoundTrip: stated for years 0..9999, the only years
  `time.Parse` with this layout accepts.
- Weekly.WeekStartSixDaysBefore: stated for every parsable latest date
  except 0000-01-01 .. 0000-01-06. For those six the window start falls in
  year -1, which Go formats with a leading '-' and which does not parse back;
  `Weekly.WeekStartOfFirstDays` states that case.
