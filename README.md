# Issue-tracker report: ticket list and close-duration phrases

A Dafny model of the core of `update-issues.go`, the program that lists the
issues of one repository and renders a static report page. The model covers
the two pieces of real logic in its `main` function:

- **The close-duration phrase** (`TimeToClose`). The time from an issue's
  creation to its closing is rounded to whole hours, half an hour rounding
  away from zero. It is then written as `"< 1 day"`, `"N days"`, `"1 week"`,
  `"N weeks"`, `"N weeks 1 day"` or `"N weeks M days"`. An issue that is still
  open gets `"--"`. The source computes this in `float64`. Once the duration
  is rounded, every quantity is a whole number of hours `h`, so the model
  works on integer hours. Module `CloseDuration` holds two versions:
  - `HoursPhrase`, on integer hours;
  - `SourceShapedPhrase`, which follows the source line by line on exact
    reals.

  `SourceShapedAgrees` proves that the two versions give the same phrase for
  every `h`. Module `PhraseReading` reads a phrase back as a statement about
  the elapsed time. It proves that the phrase written for `h` hours names the
  one hour window that holds `h`, and it pins down when the words are singular
  or plural.
- **The ticket loop.** The loop walks the fetched issues in order and drops
  three kinds of issue:
  - pull requests;
  - issues created before 2022-04-08 00:00 UTC (an issue created at exactly
    that instant is kept);
  - issue number 62.

  Every other issue becomes a `Ticket`: title, URL and comment count copied,
  state upper-cased, the close-duration phrase, and the time to the first
  listed comment. `Tickets.CollectTickets` is that loop, written imperatively
  with `continue` and the inner `for … break`. It is proved equal to the
  specification function `Tickets.Collected`. The lemmas about `Collected`
  state what the report contains: exactly the retained issues, in fetch
  order, one ticket each, or the first failed comment listing.

Instants are integers of nanoseconds since the Unix epoch (UTC). Durations
are integers of nanoseconds. Go's `%d` is modelled by `Decimal.FormatInt`,
with a parser that reads it back.

Three behaviours of the code that a reader might expect to be otherwise:
- The time to first touch uses the first comment in the order the listing
  returns them, not the chronologically earliest one.
- The excluded issue is the single hard-coded number 62, not a configurable
  set.
- Tickets keep the fetch order; nothing sorts them.

The records of update-issues.go:16-28 are the datatypes `Tickets.Ticket` and
`Tickets.PageData`; the issue and comment records of the GitHub client are
`Tickets.Issue` and `Tickets.Comment`, reduced to the fields the loop reads.

## Model

| member | source | states |
|---|---|---|
| `Decimal.FormatInt` | update-issues.go:123 | `%d` writes at least one character and never a space, so it stays one word of a phrase |
| `Decimal.FormatIntRoundTrip` | update-issues.go:123 | every `%d` rendering of an integer reads back as that integer |
| `Decimal.FormatIntInjective` | update-issues.go:131 | different week or day counts never render as the same text |
| `CloseDuration.TruncRem` | update-issues.go:126 | Go's `%` is the remainder of truncated division: it keeps the sign of the dividend, stays below the divisor in size, and the dividend minus it is a multiple of the divisor |
| `CloseDuration.RoundToHour` | update-issues.go:115-116 | `Duration.Round(time.Hour)` gives a multiple of an hour nearest the duration, an exact half hour rounding away from zero |
| `CloseDuration.RoundedHours` | update-issues.go:116 | `Hours()` of the rounded duration is the whole number of hours nearest the duration, ties away from zero |
| `CloseDuration.RoundHalfAway` | update-issues.go:123 | `math.Round` is within one half of its argument, and a tie goes away from zero |
| `CloseDuration.HoursPhrase` | update-issues.go:117-146 | every closed issue gets a phrase of at least two words |
| `CloseDuration.ClosePhrase` | update-issues.go:114-149 | the phrase is `"--"` exactly when the issue has no close time, and it is never empty |
| `CloseDuration.SourceQuantities` | update-issues.go:116-126 | for at least a day: `nWeeks < 1` iff `h < 168`; when `h < 168`, rounding `nDays` gives `(h + 12) / 24`; flooring `nWeeks` gives `h / 168`; when `h >= 168`, the remainder of the rounded hours by 168 is `h % 168` |
| `CloseDuration.RemainderDays` | update-issues.go:126-141 | the remainder in days is below 1 iff under 24 hours and equals 1 iff exactly 24 hours; its floor is the remainder divided by 24 |
| `CloseDuration.SourceShapedPhrase` | update-issues.go:116-146 | the source's real-valued branches always give a phrase of at least two words |
| `CloseDuration.SourceShapedAgrees` | update-issues.go:116-146 | the source's real-valued branches and the integer-hour phrase agree for every whole number of hours |
| `CloseDuration.RoundedWholeHours` | update-issues.go:116 | a duration of a whole number of hours is left unchanged by rounding |
| `CloseDuration.ClosePhraseWholeHours` | update-issues.go:114-116 | an issue closed a whole number of hours after its creation, whatever the creation instant, gets the phrase of exactly those hours |
| `CloseDuration.ClosePhraseExamplesDays` | update-issues.go:114-123 | an open issue gives `--`; 10 hours gives `< 1 day`; 3 days gives `3 days` |
| `CloseDuration.ClosePhraseExamplesWeeks` | update-issues.go:124-136 | 7 days gives `1 week`; 21 days gives `3 weeks` |
| `CloseDuration.ClosePhraseExampleNineDays` | update-issues.go:124-143 | 9 days gives `1 week 2 days` |
| `CloseDuration.ClosePhraseExampleHalfHour` | update-issues.go:115-123 | 35.5 hours rounds up to 36 hours, which reads `2 days` |
| `CloseDuration.OneDays` | update-issues.go:122-123 | every duration of 24 to 35 hours reads `1 days` |
| `CloseDuration.SevenDays` | update-issues.go:122-123 | every duration of 156 to 167 hours, still under a week, reads `7 days` |
| `CloseDuration.OneDayAfterWeeks` | update-issues.go:133-138 | a remainder of exactly 24 hours after the weeks adds ` 1 day` to the week part |
| `CloseDuration.OneDaysAfterWeeks` | update-issues.go:139-144 | a remainder of 25 to 47 hours after the weeks adds ` 1 days` to the week part |
| `CloseDuration.WeeksQuirks` | update-issues.go:133-141 | after one week, a remainder of exactly 24 h reads `1 week 1 day` and one of 30 h reads `1 week 1 days` |
| `CloseDuration.WeeksQuirksTwoWeeks` | update-issues.go:133-143 | after two weeks, a remainder of exactly 24 h reads `2 weeks 1 day` and one of 30 h reads `2 weeks 1 days` |
| `PhraseReading.PhraseWords` | update-issues.go:120-146 | the words of the phrase in each branch: the day count and `days`; or the week count, `week` or `weeks`, then optionally the day count and `day` or `days` |
| `PhraseReading.ReadHoursPhrase` | update-issues.go:116-146 | the phrase for `h` hours reads back to a reading whose hour window holds `h`: under a day; days rounded to the nearest day; or weeks and days both truncated |
| `PhraseReading.ReadClosePhrase` | update-issues.go:114-149 | `TimeToClose` reads back as "still open" for an open issue, otherwise as the window of the rounded elapsed hours |
| `PhraseReading.DenotesUnique` | update-issues.go:120-145 | no two readings share an hour, so a phrase determines its window |
| `PhraseReading.Pluralisation` | update-issues.go:122-145 | the day count always takes `days`; `week` is used iff there is exactly one whole week; there is no day part iff less than 24 h remain; `day` follows the remainder iff it is exactly 24 h |
| `Ascii.ToUpper` | update-issues.go:108 | the state keeps its length; each lower-case ASCII letter becomes its capital and every other character is unchanged |
| `Ascii.ToUpperIdempotent` | update-issues.go:108 | an upper-cased state has no lower-case letter left, and upper-casing it again changes nothing |
| `Ascii.ToUpperStates` | update-issues.go:108 | `open` becomes `OPEN` and `closed` becomes `CLOSED` |
| `Tickets.Keep` | update-issues.go:86-96 | an issue is kept iff it is not a pull request, was created at or after the cutoff (Go's `Sub(start) < 0` test), and is not number 62 |
| `Tickets.RetainedIndices` | update-issues.go:85-96 | the retained positions are increasing and in range, and a position is retained iff its issue is not a pull request, was created at or after the cutoff, and is not number 62 |
| `Tickets.CollectedSucceeds` | update-issues.go:100-104 | the pass succeeds iff every retained issue's comment listing succeeded; dropped issues' listings do not matter |
| `Tickets.CollectedTickets` | update-issues.go:85-158 | on success there is one ticket per retained issue, no more tickets than issues, in issue order, each built from its own issue and comment listing |
| `Tickets.CollectedFailure` | update-issues.go:100-104 | on failure the error is the message of the first retained issue whose comment listing failed |
| `Tickets.FailureIsFinal` | update-issues.go:100-104 | once a comment listing has failed, later issues change nothing: the run ends with that failure |
| `Tickets.Collected` | update-issues.go:85-160 | a successful pass never yields more tickets than there were issues |
| `Tickets.CollectedPrefix` | update-issues.go:85-158 | when the whole pass succeeds, it had succeeded after every number of issues, and the tickets built so far begin the final list |
| `Tickets.FirstTouchFirstListed` | update-issues.go:151-156 | the first touch depends only on the first listed comment: listings that start with the same comment give the same first touch |
| `Tickets.FirstTouchNotEarliest` | update-issues.go:151-156 | with a later comment listed before an earlier one, the first touch measures the later comment |
| `Tickets.TicketFields` | update-issues.go:106-156 | ticket fields: title, URL and comment count copied; state upper-cased with no lower-case letter; close phrase `--` iff open and never empty; first touch empty without comments, otherwise from the first listed comment; creation stamp formatted |
| `Tickets.BuildTicket` | update-issues.go:106-156 | the loop body for a retained issue, with its early `break` out of the comment loop, builds exactly the ticket `TicketFor` describes |
| `Tickets.CollectTickets` | update-issues.go:82-171 | the imperative loop yields exactly the page data `Collected` describes, or that failure |

## Left out

- Flag parsing and the exit when the namespace or repository name is missing (update-issues.go:35-51): these are process input and exit handling.
- The OAuth token set-up and the issue listing call (update-issues.go:57-80). The model takes the listed issues as input, so the exit on a failed issue listing is not modelled. The repository owner and name that the comment listing hard-codes at line 100 only choose what the network returns, so they do not appear.
- The listing options (`State: "all"`, `Since`, 100 per page; update-issues.go:70-74) select what the server returns. Only the first page is fetched. All of this happens before the modelled loop.
- `Time.Format("2006-01-02 15:04")` (line 98) and `Duration.String()` (line 153) are Go's calendar and duration formatting. They are the function parameters `formatStamp` and `formatDuration`.
- Creating `index.html`, parsing the template and executing it (update-issues.go:173-184): file output and HTML rendering.
- CloseDuration.SourceShapedPhrase: uses exact reals in place of `float64`. The two agree while the hour count is below 2^53, which holds for any real closing time.
- CloseDuration.RoundedHours: does not model the saturation of Go's 64-bit durations. Neither does `ClosedAt.Sub(CreatedAt)` in `ClosePhrase`. The limit is about 292 years of elapsed time.
- Ascii.ToUpper: upper-cases ASCII letters only, while Go's `strings.ToUpper` follows Unicode. Issue states are the ASCII words `open` and `closed`.
- A nil issue number, title, state, URL or comment count (dereferenced at lines 94 and 107-110), a nil issue creation time (lines 90, 98 and 115) or a nil comment creation time (line 152) would panic. The model's issue and comment fields are always present.
