# OpenTweet core, modelled in Dafny

OpenTweet is a small timeline client. It loads a feed of posts ("tweets") from a
bundled JSON document and shows each post's author, styled text and date. This
project models and proves the two parts of the app that hold logic:

- **Tweet text styling** (`Utils/String+Style.swift`). This covers the mention
  scanner for the pattern `\B@\w+\b`, which returns UTF-16 offset ranges over
  the whole text. It also covers the range highlighter, which layers an
  attribute dictionary over a list of ranges, and the styling pipeline: base
  font, then mention style, then link style.
- **The view models** (`ViewModal/TimelineViewModal.swift`). `TimelineViewmodel`
  owns the list of posts. `fetchTimeline` replaces the list only when the
  provider returns a timeline, and the class also has a row count and an index
  lookup. `TweetViewmodel` exposes a post's fields and a date normaliser. The
  normaliser reads an RFC 3339 (section 5.6) Internet date-time and shows it as
  `MMM d, yyyy HH:mm` in the display zone, or shows the raw text if it does not
  parse. `TweetViewmodel` also has an avatar fetch that fails with `urlError`
  when the post has no avatar.

Modules, one per concern:

| file | module | models |
|---|---|---|
| wrappers.dfy | `Wrappers` | Swift optionals and `Result` |
| modal.dfy | `Modal` | `TweetModel`, `Timelinemodel` records |
| service.dfy | `Service` | `RequestError`, the `ServiceProtocol` capability, the test double |
| utf16_text.dfy | `Utf16Text` | UTF-16 code units, `NSRange` |
| mentions.dfy | `Mentions` | `rangeOfMentions` / `ranges(matching:)` for the mention pattern |
| attributed_text.dfy | `AttributedText` | attributed strings, `addAttributes`, `highlighting(ranges:with:)` |
| tweet_styling.dfy | `TweetStyling` | `TweetStyling` constants, `applyingTweetStyling(fontSize:)` |
| calendar.dfy | `Calendar` | Gregorian date arithmetic used when rendering in a time zone |
| decimal.dfy | `Decimal` | decimal numerals, zero padding |
| date_format.dfy | `DateFormat` | the Internet date-time parser, display rendering, `dateString` logic |
| date_examples.dfy | `DateExamples` | worked displays: the first bundled post's date in its own zone and in UTC, a time that rolls over into the next year, and two texts shown unchanged |
| view_model.dfy | `ViewModel` | `TweetViewmodel`, `TimelineViewmodel` |

Modelling choices:

- **Text is a sequence of UTF-16 code units.** `\w` is the parameter
  `w: CodeUnit -> bool`, an abstract word class. Offsets outside the text count
  as non-word positions, as they do for regex word boundaries. The scan returns
  exactly the mentions only if `@` is not a word character, as in ICU's `\w`.
  The lemmas that need this say so in their `requires`.
- **The scanner works like the regex engine.** It tries the pattern at position
  `p`. On a match it resumes at the match's end; otherwise it resumes at `p + 1`.
  The greedy `\w+` always ends at a word boundary, so backtracking never
  happens. The `try? NSRegularExpression` guard can only fail for an invalid
  pattern, and the mention pattern is fixed and valid, so the guard is not
  modelled.
- **An attributed string is its text plus one attribute dictionary per code
  unit.** `NSMutableAttributedString` is a class whose `attributes` sequence is
  reassigned by `AddAttributes`. `NSAttributedString` is an immutable datatype.
  Attribute keys and values are opaque tokens. Foundation raises an exception
  when a range falls outside the text, so that is a `requires` of
  `AddAttributes` and of everything that calls it.
- **Link detection is an input.** `NSDataDetector` is a library heuristic, so
  the link ranges are the parameter `links`. The model assumes only that they
  lie within the text.
- **The provider is a datatype of two functions.** It holds `fetchTweets` and
  `fetchImage`, standing in for the `ServiceProtocol` shape. The avatar
  completion runs exactly once, so `fetchAvatar` is modelled as the one result
  it is called with.
- **`TweetViewmodel` is a value.** Both of its properties are `let` constants,
  so it is a datatype. `TimelineViewmodel` is a class, because `fetchTimeline`
  overwrites its `tweets` field.
- **`TweetAt` takes the new view model's provider as a parameter.** The source's
  `tweet(at:)` builds the view model with a fresh default `Service()`, not with
  the timeline's own provider. The parameter stands for that default service.
- **The display zone is a fixed offset in minutes east of UTC.** Rendering it
  is shifting the written wall-clock time by `zone - offset` minutes, with day,
  month and year rollover in the proleptic Gregorian calendar. An independent
  day numbering (`Calendar.DayNumber`) and an instant (`Calendar.InstantMinute`)
  show that the shift keeps the instant. Distinct valid dates have distinct
  day numbers, so the instant fixes the shown date and time. Month
  abbreviations are English.
- **The parser is strict RFC 3339.** This matches the formatter's default
  Internet date-time format. The text is `YYYY-MM-DD`, `T`, `hh:mm:ss`, then
  `Z` or `+hh:mm`/`-hh:mm`. Fractional seconds and a missing offset are parse
  failures. A field out of range (month 13, a day the month lacks, hour 24,
  minute or second 60, offset hour 24) is also a failure.

## Model

| member | source | states |
|---|---|---|
| Mentions.WordRunEnd | Utils/String+Style.swift:29 | the greedy `\w+` run from a position ends at the first non-word position (or the text end), and everything in between is a word character |
| Mentions.MatchAt | Utils/String+Style.swift:29 | the pattern matches at `s` exactly when `s..e` is a mention: a `@` not at a word boundary, at least one following word character, ending where word characters end; no match means no mention starts at `s` |
| Mentions.MatchesFrom | Utils/String+Style.swift:47-53 | every match found scanning from `p` starts at or after `p`, is a mention, and the matches are in increasing order without overlap |
| Mentions.RangeOfMentions | Utils/String+Style.swift:28-31 | every returned range is a mention, lies within `[0, length)` of the UTF-16 text, and the ranges are increasing and disjoint |
| Mentions.MatchesFromComplete | Utils/String+Style.swift:47-53 | every mention at or after `p` is among the matches of the scan from `p` (when `@` is not a word character) |
| Mentions.RangeOfMentionsExact | Utils/String+Style.swift:28-31 | a range is returned if and only if it is a mention (when `@` is not a word character): sound, complete, each mention maximal |
| Mentions.MentionStart | Utils/String+Style.swift:29 | a mention starts at a `@` if and only if the `@` is at offset 0 or after a non-word unit and a word character follows it |
| Mentions.NoMentionAfterWord | Utils/String+Style.swift:29 | `a@b` yields no mention |
| Mentions.MentionAtStartOrAfterSpace | Utils/String+Style.swift:29 | `@b` yields the range (0, 2) and ` @b` yields (1, 2) |
| AttributedText.MutableAttributedString.constructor | Utils/String+Style.swift:63 | a new mutable attributed string holds the text with an empty dictionary at every position |
| AttributedText.MutableAttributedString.Copy | Utils/String+Style.swift:77 | the mutable copy has the same text and the same dictionaries |
| AttributedText.MutableAttributedString.AddAttributes | Utils/String+Style.swift:79 | inside the range each key of the dictionary takes its new value and other keys stay; outside the range and in the text nothing changes |
| AttributedText.Highlighting | Utils/String+Style.swift:76-82 | the text is unchanged; a position covered by some range gets the dictionary laid over its old attributes, an uncovered position keeps its attributes exactly; an empty range list returns the input |
| AttributedText.LayeredKeys | Utils/String+Style.swift:78-80 | within a highlighted range the keys of the dictionary take its values and every other key keeps its presence and value |
| AttributedText.LayerTwice | Utils/String+Style.swift:78-80 | laying the same dictionary twice over a position equals laying it once, so overlapping ranges do not compound |
| TweetStyling.ApplyingTweetStyling | Utils/String+Style.swift:59-67 | the text is unchanged; each position carries the base font, then the mention style where a mention covers it, then the link style where a link covers it; the base font survives everywhere and link values win on shared keys |
| TweetStyling.ApplyingDefaultTweetStyling | Utils/String+Style.swift:59 | called without a size, the styling uses the system font at size 14 at every position, with the same mention and link layers |
| Calendar.DaysInMonth | ViewModal/TimelineViewModal.swift:55-58 | months have 28 to 31 days; February has 29 exactly in leap years |
| Calendar.NextDay | ViewModal/TimelineViewModal.swift:55-58 | the day after a valid date is a valid date (day, month and year roll over) |
| Calendar.PrevDay | ViewModal/TimelineViewModal.swift:55-58 | the day before a valid date is a valid date |
| Calendar.PrevNext | ViewModal/TimelineViewModal.swift:55-58 | the previous day of the next day is the date itself |
| Calendar.NextPrev | ViewModal/TimelineViewModal.swift:55-58 | the next day of the previous day is the date itself |
| Calendar.AddDays | ViewModal/TimelineViewModal.swift:55-58 | stepping a valid date any number of days gives a valid date |
| Calendar.LeapYearsStep | ViewModal/TimelineViewModal.swift:55-58 | the leap-year count grows by one exactly across a leap year |
| Calendar.DaysInYear | ViewModal/TimelineViewModal.swift:55-58 | a year has 366 days if it is a leap year and 365 otherwise |
| Calendar.DayNumberOrder | ViewModal/TimelineViewModal.swift:55-58 | day numbers follow calendar order: a date earlier by year, month or day has a smaller number |
| Calendar.DayNumberInjective | ViewModal/TimelineViewModal.swift:55-58 | two valid dates have the same day number exactly when they are the same date |
| Calendar.InstantMinuteInjective | ViewModal/TimelineViewModal.swift:55-58 | at one offset, two valid wall-clock times denote the same minute exactly when their date, hour and minute agree |
| Calendar.NextDayNumber | ViewModal/TimelineViewModal.swift:55-58 | the next day has the day number one greater, against an independent count of days from year 0 |
| Calendar.PrevDayNumber | ViewModal/TimelineViewModal.swift:55-58 | the previous day has the day number one smaller |
| Calendar.AddDaysNumber | ViewModal/TimelineViewModal.swift:55-58 | stepping `n` days moves the day number by exactly `n` |
| Calendar.AddDaysAdd | ViewModal/TimelineViewModal.swift:55-58 | stepping `a` days then `b` days equals stepping `a + b` days |
| Calendar.ShiftMinutes | ViewModal/TimelineViewModal.swift:55-58 | moving a valid wall-clock time by any number of minutes gives a valid time with the same second |
| Calendar.ShiftKeepsInstant | ViewModal/TimelineViewModal.swift:55-58 | moving the wall clock and the UTC offset by the same minutes denotes the same instant |
| Calendar.ShiftAdd | ViewModal/TimelineViewModal.swift:55-58 | shifting by `a` then by `b` minutes equals shifting by `a + b` |
| Calendar.ShiftZero | ViewModal/TimelineViewModal.swift:55-58 | shifting by zero minutes changes nothing |
| Calendar.ShiftRoundTrip | ViewModal/TimelineViewModal.swift:55-58 | shifting forward and back by the same minutes restores the time |
| Decimal.Digits | ViewModal/TimelineViewModal.swift:57-58 | a numeral is a non-empty run of digits, one digit long exactly below 10, with no leading zero for a positive number |
| Decimal.ValueOfDigits | ViewModal/TimelineViewModal.swift:57-58 | reading the numeral of `n` gives `n` |
| Decimal.ValueLeadingZeros | ViewModal/TimelineViewModal.swift:57-58 | leading zeros do not change the value of a numeral |
| Decimal.ValuePadded | ViewModal/TimelineViewModal.swift:57-58 | reading a zero-padded numeral gives the number back |
| DateFormat.ParseOffset | ViewModal/TimelineViewModal.swift:54-55 | an accepted time-zone designator is an offset of at most 23:59 either way |
| DateFormat.ParseInternetDateTime | ViewModal/TimelineViewModal.swift:54-55 | an accepted text gives a valid calendar date-time and offset |
| DateFormat.ParseFormat | ViewModal/TimelineViewModal.swift:54-55 | parsing the Internet date-time text of a valid date with a four-digit year gives that date back |
| Decimal.PaddedValue | ViewModal/TimelineViewModal.swift:54-55 | a non-empty digit field read as a number and padded back to its width is the field itself |
| Decimal.ValueBelow | ViewModal/TimelineViewModal.swift:54-55 | a field of `k` digits has a value below 10^k, so a four-digit year is at most 9999 |
| DateFormat.ParseWithDesignator | ViewModal/TimelineViewModal.swift:54-55 | a date part, `T`, a time part and any designator the offset reader accepts parse back as that date-time and offset |
| DateFormat.ParseZeroOffsetSpelled | ViewModal/TimelineViewModal.swift:54-55 | a zero offset written `+00:00` or `-00:00` parses as UTC |
| DateFormat.ParsedDateAndTime | ViewModal/TimelineViewModal.swift:54-55 | the first 19 characters of an accepted text are the date part, `T` and the time part of the date-time it yields, whose year is at most 9999 |
| DateFormat.SignedDesignator | ViewModal/TimelineViewModal.swift:54-55 | a `+hh:mm`/`-hh:mm` designator gives a valid offset and is the formatter's text for it, or `+00:00`/`-00:00` for zero |
| DateFormat.ParsedDesignator | ViewModal/TimelineViewModal.swift:54-55 | the designator of an accepted text is the formatter's one for the offset it yields, or `+00:00`/`-00:00` for zero |
| DateFormat.AcceptedTexts | ViewModal/TimelineViewModal.swift:54-55 | a text parses as a date-time and offset if and only if it is the Internet date-time text of that valid date-time with a four-digit year (with `+00:00` or `-00:00` also allowed for zero), so only RFC 3339 date-times are accepted and every other text falls back |
| DateFormat.MonthFrom | ViewModal/TimelineViewModal.swift:57 | a month found for an abbreviation is in 1..12 and has that abbreviation |
| DateFormat.MonthFromFinds | ViewModal/TimelineViewModal.swift:57 | every month's abbreviation is found as that month |
| DateFormat.ParseDisplayLayout | ViewModal/TimelineViewModal.swift:57-58 | a string laid out as month, space, day, comma and space, year, space, `HH:mm` reads back as those fields |
| DateFormat.ParseRenderDisplay | ViewModal/TimelineViewModal.swift:56-58 | `RenderDisplay`, the `MMM d, yyyy HH:mm` rendering, reads back as the wall-clock time's month abbreviation, unpadded day, four-digit year, two-digit hour and two-digit minute, so the rendering shows exactly those fields |
| DateFormat.WallClock | ViewModal/TimelineViewModal.swift:55-58 | the time shown in the display zone is valid and denotes the parsed instant |
| DateFormat.DisplayDate | ViewModal/TimelineViewModal.swift:53-61 | text that does not parse is returned verbatim |
| DateFormat.DisplayDateShowsInstant | ViewModal/TimelineViewModal.swift:54-58 | on a parse the display shows the fields of a wall-clock time in the display zone that denotes the parsed instant, and those are the fields of every valid wall-clock time denoting that instant there, so the shown date and time are the only possible ones |
| DateFormat.DisplayInWrittenZone | ViewModal/TimelineViewModal.swift:54-58 | shown in the zone the text was written in, the display is the written wall-clock time |
| DateExamples.FirstPostParses | OpenTweetTests/TimelineViewModalTests.swift:35 | the first bundled post's date parses as 2020-09-29 14:41:00 at -08:00 |
| DateExamples.FirstPostInItsZone | ViewModal/TimelineViewModal.swift:54-58 | that date shows as `Sep 29, 2020 14:41` at -08:00 |
| DateExamples.FirstPostInUtc | ViewModal/TimelineViewModal.swift:54-58 | that date shows as `Sep 29, 2020 22:41` in UTC |
| DateExamples.NewYearParses | ViewModal/TimelineViewModal.swift:54-55 | `2020-12-31T23:30:00-08:00` parses as 2020-12-31 23:30:00 at -08:00 |
| DateExamples.NewYearInUtc | ViewModal/TimelineViewModal.swift:55-58 | that date shows as `Jan 1, 2021 07:30` in UTC: day, month and year roll over |
| DateExamples.NotADate | ViewModal/TimelineViewModal.swift:59-61 | `not-a-date` is shown unchanged |
| DateExamples.NoOffset | ViewModal/TimelineViewModal.swift:59-61 | a date-time without an offset is shown unchanged |
| ViewModel.PostFields | ViewModal/TimelineViewModal.swift:45-51 | `authorName` and `content` are the post's author and text, the same whatever provider the view model holds |
| ViewModel.TweetViewmodel.DateString | ViewModal/TimelineViewModal.swift:53-62 | the post's date is returned verbatim whenever it does not parse as an Internet date-time |
| ViewModel.TweetViewmodel.FetchAvatar | ViewModal/TimelineViewModal.swift:64-71 | no avatar: failure `urlError`; an avatar: the provider's result for exactly that URL string |
| ViewModel.FetchAvatarWithoutUrl | ViewModal/TimelineViewModal.swift:65-68 | without an avatar the result is a failure and the same for every provider: the provider is never consulted |
| ViewModel.FetchAvatarForwardsUrl | ViewModal/TimelineViewModal.swift:70 | with an avatar, two providers that answer alike for that URL give the same result |
| ViewModel.FetchAvatarWithMock | OpenTweetTests/TweetViewModalTests.swift:32-57 | with the test double and no error set, a post with an avatar gets success; with an error set it gets that error |
| ViewModel.TimelineViewmodel.constructor | ViewModal/TimelineViewModal.swift:12-18 | a new store holds no posts and keeps the given provider |
| ViewModel.TimelineViewmodel.TweetAt | ViewModal/TimelineViewModal.swift:20-22 | for `0 <= index < count` the view model wraps `tweets[index]` unchanged; its author name and content are that post's fields |
| ViewModel.TimelineViewmodel.GetNumberOfRowsInSection | ViewModal/TimelineViewModal.swift:24-26 | the row count is the number of posts held |
| ViewModel.TimelineViewmodel.FetchTimeline | ViewModal/TimelineViewModal.swift:28-33 | a returned timeline replaces the posts in document order; no timeline leaves them unchanged |
| ViewModel.LoadAndCount | OpenTweetTests/TimelineViewModalTests.swift:28-44 | a fresh store loaded from a provider counts and holds that timeline's posts in order, or holds none when no timeline is returned |

## Left out

- The thread lookup `thread(for:)` is called by the timeline screen, but its definition is not part of this model, so no thread behaviour is stated.
- Screens, cells, layout, highlight animations and main-thread dispatch are UI code with no logic to state.
- `Service` networking, reading the bundled file and JSON decoding are I/O and library code. Only the provider's shape and the records are modelled. This leaves out the `"timeline"` key mapping and the strict all-or-nothing decode.
- The `print` in `fetchTimeline` is console output with no effect on state.
- AttributedText.Highlighting: a range that falls outside the text, which Foundation rejects by raising an exception, is excluded by `requires` here and in `AddAttributes` and `ApplyingTweetStyling`, so that failure is not modelled. The callers at Utils/String+Style.swift:63-66 pass only the whole-text range, mention matches and detector matches over the whole text, all of which lie within it.
- Link detection by `NSDataDetector` is a library heuristic. Its ranges are an input assumed to lie within the text.
- `errorMessage`, asserted by one test, does not exist on the shown `TweetViewmodel`.
- Colours and fonts are opaque tokens only.
- Mentions.RangeOfMentions: the real `\w` class, combining-mark handling in `\b` and surrogate pairs are not modelled; the word class is abstract.
- DateFormat.DisplayDate: dates before 1582-10-15 are rendered in the proleptic Gregorian calendar, while Foundation switches to the Julian calendar there. Years below 1 are written with a minus sign rather than as era years. Locale month names and daylight-saving zones are not modelled: the display zone is one fixed offset, and the names are English.
- DateFormat.DisplayDateShowsInstant: the read-back is stated only for display years 0 to 9999. A year outside that range, such as 10000 for `9999-12-31T23:30:00-08:00` shown in UTC, is rendered with as many digits as it needs, as `yyyy` does, but the display reader takes four-digit years only, so no lemma reads such a display back.
- DateFormat.ParseInternetDateTime: lenient inputs the platform parser might also accept (lower-case `t` or `z`, an offset without a colon, a leap second) are parse failures here.
- ViewModel.TweetViewmodel.DateString: only the fallback is stated on the member; what a successful parse shows is stated by DateFormat.DisplayDateShowsInstant and DateFormat.ParseRenderDisplay.
- ViewModel.TimelineViewmodel.TweetAt: the default `Service()` the source builds for each view model is a parameter. An out-of-range index traps in Swift and is excluded by `requires`. Likewise the constructor `ViewModel.TimelineViewmodel.constructor` takes its provider as a required argument, where `init(dataProvider:)` defaults it to `Service()`.
- ViewModel.TimelineViewmodel.FetchTimeline: the provider is a fixed function, so two fetches from one provider give the same answer. A real file read could differ between calls.
