# Warhorn schedule digest, modelled in Dafny

`warhorn_scraper.py` reads the Atom schedule feed of "RPG Night Utrecht" on
Warhorn and prints a short digest. The digest covers the first session day that
is today or later. It lists every session on that day that still has open seats
(or is overbooked), grouped under venue headings.

This project models the two pure parts of that script:

- `parse_entry` turns one feed entry into a session record:
  - the date, from a weekday `D/M` token with a year-rollover rule, or else from an ISO timestamp;
  - the game-master and player counts, from `x/y GM` and `x/y players`;
  - the location, from `gd:where`, or else from an `at ...` phrase;
  - the trimmed title;
  - the open-seat count.
- The decision part of `main`:
  - drop undated sessions;
  - choose the earliest date that is not before today;
  - keep sessions with a non-zero open-seat count;
  - derive venue names by removing the `Subcultures @` prefix;
  - emit the venues in sorted order, each with its sessions in feed order;
  - remove `[...]`, `(...)` and `{...}` annotations from titles;
  - choose "seat left" or "seats left".

Modules:

- `Wrappers`: `Option` and `Result`.
- `Text`: Python's whitespace and digit classes, `strip`, `split(c)[0]`, `int()` on digit strings, and Python's string order.
- `Calendar`: the proleptic Gregorian date triple that `datetime` accepts, date order, and the strict `%Y-%m-%d` parse and its spelling.
- `Scan`: the three `re.search` patterns. Each one is modelled three ways:
  - a declarative "the pattern matches here with these lengths" predicate, including the choice the backtracking engine makes;
  - an operational matcher at one position;
  - a leftmost scanner. Its contract says the result is a match, no match starts earlier, and there is no match at all when it returns none.
- `Entry`: the feed entry record, the session record, and `ParseEntry`.
- `Report`: date selection, venue grouping, title cleanup, pluralisation, and `Run`, the whole decision of `main`.
- `Scenarios`: concrete inputs worked through the model. Examples are the weekday token `Wed 15/10` across a year boundary, `31/4`, a leap day, `3/6 GM 10/12 players` giving two open seats, an overbooked session, a `Subcultures @` venue, and an annotated title.

A session without a `<digits>/<digits> players` count makes the source compute
`None - None` and stop with an exception. Every `parse_entry` call happens
before anything is printed, so one such entry ends the whole run with no digest.
The model keeps this behaviour. `ParseEntry` returns `Failure(MissingPlayerCounts)`,
and `Run` then returns `Crashed`. The model does not switch to the hardened
variant that would drop such sessions.

## Model

| member | source | states |
|---|---|---|
| Text.Strip | warhorn_scraper.py:62 | `strip(chars)` returns the slice of its input left after removing leading and trailing characters of the set. The result neither starts nor ends with one of them, and it is empty exactly when every character is in the set. |
| Text.StripCharacterised | warhorn_scraper.py:62 | Any split of a string into set-only padding around an unpadded middle gives exactly what `strip` returns, so the result is unique. |
| Text.StripPadding | warhorn_scraper.py:62 | Characters of the set placed around an unpadded middle are exactly what `strip` removes, so the middle comes back. |
| Text.StripIdempotent | warhorn_scraper.py:80 | Stripping twice is the same as stripping once. |
| Text.StripIsInfix | warhorn_scraper.py:62 | What `strip` returns is a contiguous piece of its input. |
| Text.Trim | warhorn_scraper.py:62 | `strip()` with no argument leaves no surrounding whitespace, and gives the empty string exactly when the input is all whitespace. |
| Text.BeforeFirst | warhorn_scraper.py:62 | `split(',')[0]` is a prefix with no comma, followed either by a comma or by the end of the input. |
| Text.BeforeFirstCharacterised | warhorn_scraper.py:62 | The comma-free prefix that ends at a comma or at the end is unique, and it is what `split(',')[0]` returns. |
| Text.DigitsValue | warhorn_scraper.py:31-32 | `int()` of an n-digit string is below 10^n. |
| Text.PadDigitsOfValue | warhorn_scraper.py:44 | Spelling the value of a digit string at its own width gives that string back, so zero-padded numerals are canonical. |
| Text.BelowIrreflexive | warhorn_scraper.py:118 | Python's string `<` never holds between a string and itself. |
| Text.BelowTransitive | warhorn_scraper.py:118 | Python's string `<` is transitive. |
| Text.BelowTotal | warhorn_scraper.py:118 | Any two different strings are ordered one way or the other, so `sorted` on venue names is well defined. |
| Calendar.DaysInMonth | warhorn_scraper.py:37 | Every month has 28 to 31 days, and February has 29 exactly in leap years. |
| Calendar.MakeDate | warhorn_scraper.py:36-39 | `datetime(y, m, d)` inside `try` yields a date exactly when the triple is a real calendar day in years 1..9999, and otherwise yields none. |
| Calendar.BeforeIsStrictTotalOrder | warhorn_scraper.py:93-96 | Date comparison is irreflexive and transitive, and total on distinct dates. |
| Calendar.ParseIsoDate | warhorn_scraper.py:44 | `strptime(.., "%Y-%m-%d")` accepts only a `YYYY-MM-DD`-shaped string naming a real day. |
| Calendar.IsoRoundTrip | warhorn_scraper.py:44 | Parsing the zero-padded spelling of a valid date gives that date back. |
| Calendar.IsoParseCanonical | warhorn_scraper.py:44 | Every string the parse accepts is the canonical spelling of the date it returns. |
| Calendar.IsoPrefixDate | warhorn_scraper.py:41-46 | A date is read from a timestamp only when it has at least ten characters and its first ten parse as a date. |
| Calendar.IsoPrefixOfTimestamp | warhorn_scraper.py:41-44 | A timestamp that starts with a date's spelling, with anything after it, yields that date. |
| Scan.DateTokenMatchAt | warhorn_scraper.py:29 | The weekday pattern's result at one position is a match there when one exists, and none exactly when no reading matches. |
| Scan.ReadDateTokenComplete | warhorn_scraper.py:29 | Wherever the weekday pattern matches, the one-position reader returns exactly that match, so the reader misses nothing. |
| Scan.FindDateToken | warhorn_scraper.py:29 | `re.search` for the weekday token returns a match with no match starting earlier, and returns none only when nothing matches anywhere. |
| Scan.DateTokenUnique | warhorn_scraper.py:29 | Two matches at the same position are equal, so the day and month a token denotes are determined. |
| Scan.FindDateTokenIsLeftmost | warhorn_scraper.py:29 | Any match with nothing earlier is exactly what the search returns. |
| Scan.TokenDay | warhorn_scraper.py:31 | The day group has one or two digits, so its value is below 100. |
| Scan.TokenMonth | warhorn_scraper.py:32 | The month group has one or two digits, so its value is below 100. |
| Scan.CountsMatchAt | warhorn_scraper.py:50-51 | The counts pattern's result at one position is the match there when one exists, and none exactly when no reading matches. |
| Scan.ReadCountsComplete | warhorn_scraper.py:50-51 | Wherever a counts pattern matches, the one-position reader returns exactly that match. |
| Scan.FindCounts | warhorn_scraper.py:50-51 | `re.search` for `(\d+)/(\d+)\s*GM` or `...players` returns a match with none earlier, and returns none only when nothing matches. |
| Scan.CountsUnique | warhorn_scraper.py:50-51 | Two counts matches at the same position are equal, so the signed-in and limit groups are determined. |
| Scan.FindCountsIsLeftmost | warhorn_scraper.py:50-51 | Any counts match with nothing earlier is exactly what the search returns. |
| Scan.CountsValues | warhorn_scraper.py:53-57 | The signed-in and limit numbers are below 10 to the power of their digit counts. |
| Scan.AtWidthAt | warhorn_scraper.py:66 | At one position, `at\s+` takes the longest whitespace run that still leaves a `[^<,]` character for the group, and finds none exactly when no reading works. |
| Scan.AtMatchUnique | warhorn_scraper.py:66 | At one position the engine settles on one whitespace width only, so the captured group is determined. |
| Scan.FindAt | warhorn_scraper.py:66 | `re.search` for `at\s+([^<,]+)` returns the leftmost position with a reading, and returns none only when no position has one. |
| Scan.FindAtIsLeftmost | warhorn_scraper.py:66 | Any `at\s+` reading with no candidate before it is exactly what the search returns. |
| Scan.AtGroup | warhorn_scraper.py:68 | The captured group starts right after the matched whitespace and runs up to the next `<` or `,` or the end of the text. It is non-empty and contains neither. |
| Entry.RolloverYear | warhorn_scraper.py:33-35 | A token's year is the first year in which its month is not before the current month, so the date never lies in an earlier month. |
| Entry.DateSearchText | warhorn_scraper.py:29 | The token is searched in the content, and in the summary only when the content is empty, as Python's `or` on strings does. |
| Entry.RolloverYearRule | warhorn_scraper.py:33-35 | That year is the current year, plus one exactly when the token's month is smaller than the current month. |
| Entry.TokenDate | warhorn_scraper.py:30-39 | A token gives its literal day and month in the rollover year. It gives no date exactly when that triple is not a real day, so 31/4, 29/2 in a common year and month 13 do not raise. |
| Entry.ExtractDate | warhorn_scraper.py:29-46 | An entry's date, when present, is always a valid calendar day. |
| Entry.TokenBeatsTimestamps | warhorn_scraper.py:29-39 | When a weekday token exists, `published` and `updated` have no influence on the date. |
| Entry.TokenDecides | warhorn_scraper.py:29-39 | When a weekday token exists, the date is the one the token with no token before it names in the rollover year, or none when that day does not exist. |
| Entry.UpdatedWithoutPublished | warhorn_scraper.py:40-46 | Without a token and without `published`, the date comes from the first ten characters of `updated`, and there is none when `updated` is missing too. |
| Entry.SummaryOnlyWithoutContent | warhorn_scraper.py:29 | The summary is never looked at when the content is non-empty. |
| Entry.PublishedShadowsUpdated | warhorn_scraper.py:41-46 | Without a token, a present `published` decides the date alone, and `updated` has no influence even when `published` does not parse. |
| Entry.TimestampFallback | warhorn_scraper.py:40-46 | Without any token, a `published` value starting with a date's spelling yields that date. |
| Entry.ExtractCounts | warhorn_scraper.py:47-57 | The counts are absent exactly when the content is empty or has no match. Otherwise they are the two numbers of the leftmost match in the unescaped content, the one with no match starting before it. |
| Entry.CountsFromLeftmost | warhorn_scraper.py:47-57 | Any counts match with no match before it in non-empty content gives exactly the signed-in and limit numbers returned. |
| Entry.WhereLocation | warhorn_scraper.py:60-62 | The `gd:where` location contains no comma, does not start or end with `"`, and is a piece of the `where` text. |
| Entry.WhereRoundTrip | warhorn_scraper.py:60-62 | A comma-free name without surrounding double quotes is read back exactly. It may be written with any whitespace and double quotes around it and optionally followed by a comma and more. The only condition is that the quoted name has no surrounding whitespace, so whitespace just inside the quotes is kept. |
| Entry.FallbackLocation | warhorn_scraper.py:63-68 | The `at` location is the whitespace-stripped group of the leftmost `at\s+` reading. It contains no `<` or `,`, has no surrounding whitespace, and is a piece of the content. It is absent exactly when no `at\s+` reading exists. |
| Entry.FallbackFromLeftmost | warhorn_scraper.py:66-68 | Any `at\s+` reading with no candidate before it gives the location: its group, stripped. |
| Entry.WhereOf | warhorn_scraper.py:60-62 | A `gd:where` location is produced exactly when the value is present and non-empty. |
| Entry.ExtractLocation | warhorn_scraper.py:58-68 | A non-empty `gd:where` location always wins, and empty content leaves it as it is. When `gd:where` gives nothing or an empty name and the content is non-empty, the `at` location is used whenever there is one. Without any `at` reading the `gd:where` result stands. The result never contains a comma. |
| Entry.LocationFromAt | warhorn_scraper.py:58-68 | When `gd:where` gives nothing or an empty name, the location is the stripped group of the leftmost `at\s+` reading in the unescaped content. |
| Entry.ParseEntry | warhorn_scraper.py:14-82 | A parsed session has a valid date if any, both player numbers, and open seats equal to limit minus signed in with no clamping. Its game-master numbers are both present or both absent, its title is the stripped feed title, and its location has no comma. Parsing succeeds exactly when the `players` counts are found. The date is `ExtractDate`'s, the location is `ExtractLocation`'s, the player numbers are the `players` counts, and the game-master numbers are the `GM` counts, or absent when there are none. |
| Entry.Assemble | warhorn_scraper.py:73-82 | The returned record carries the extracted date, location and title unchanged, and the `x/y players` numbers as signed in and limit. The game-master numbers are present exactly when a `GM` count was found. |
| Entry.ParsedCounts | warhorn_scraper.py:47-81 | For every entry whose `players` counts are found, parsing succeeds. The session carries those counts, and the `GM` counts when found (both absent otherwise). Its open seats are the player limit minus the signed-in players. |
| Entry.ParseEntryFailsWithoutPlayers | warhorn_scraper.py:47-57 | Parsing fails exactly when the content is empty or has no `<digits>/<digits> players` count anywhere, which is the `None - None` crash at line 81. |
| Report.Filter | warhorn_scraper.py:110-112 | Filtering keeps exactly the elements that pass and never adds any. |
| Report.FilterAppend | warhorn_scraper.py:110-116 | Filtering distributes over concatenation, so feed order is kept. |
| Report.SessionDates | warhorn_scraper.py:87-91 | The grouped dates are exactly the dates of the dated sessions. Undated sessions contribute nothing. |
| Report.EarliestUpcoming | warhorn_scraper.py:92-101 | The chosen date is the least date that is not before today. There is none exactly when every date is before today. |
| Report.EarliestUpcomingUnique | warhorn_scraper.py:92-98 | At most one date is the earliest upcoming date. |
| Report.FirstAtOrAfter | warhorn_scraper.py:93-98 | The loop stops at a date of the list that is not before today, and every date before that position is before today. It finds none exactly when every date is before today. |
| Report.FirstAtOrAfterIsEarliest | warhorn_scraper.py:93-98 | On ascending keys, the loop that breaks at the first date `>= today` returns the earliest upcoming date. It finds none exactly when all dates are past. |
| Report.SortedScanFindsEarliest | warhorn_scraper.py:93-98 | The loop over `sorted(keys)` and the least-upcoming-date definition agree on every input. |
| Report.VenueName | warhorn_scraper.py:113-115 | A location without the `Subcultures @` prefix is used as it is, and a missing one becomes `""`. With the prefix, the venue is a strictly shorter, whitespace-trimmed piece of it. |
| Report.VenueRoundTrip | warhorn_scraper.py:114-115 | A venue written after the prefix, with any surrounding whitespace, is recovered exactly. |
| Report.InsertName | warhorn_scraper.py:118 | Adding a name to an ascending list keeps it ascending, and the elements are the old ones plus the new name. |
| Report.SortedNames | warhorn_scraper.py:118 | `sorted(grouped.keys())` holds each venue exactly once, in strictly ascending order. |
| Report.AscendingNamesUnique | warhorn_scraper.py:118 | Two strictly ascending lists with the same elements are equal, so any correct sort gives the same headings. |
| Report.StripAnnotations | warhorn_scraper.py:122 | Removing annotations never lengthens a title or adds characters, and leaves no complete annotation. A title with no opener is unchanged. |
| Report.StripAnnotationsFixed | warhorn_scraper.py:122 | A title with no complete annotation is left exactly as it is. |
| Report.StripAnnotationsKeepsPlainPrefix | warhorn_scraper.py:122 | Text before the first opener is kept as it is. |
| Report.StripAnnotationsDropsGroup | warhorn_scraper.py:122 | An opener, a body without its closer, and the closer are removed as one group. |
| Report.KeepsUnmatchedOpener | warhorn_scraper.py:122 | An opener with no closer of its kind anywhere after it is kept, and stripping goes on after it, so `[x (y)` becomes `[x `. |
| Report.CleanTitle | warhorn_scraper.py:122 | A printed title is no longer than the feed title, has no surrounding whitespace and no complete annotation, and is just the stripped title when there is no opener. |
| Report.CleanTitleDropsGroup | warhorn_scraper.py:122 | A complete `[…]`, `(…)` or `{…}` group after opener-free text is dropped from the printed title. The text before it is kept, and cleaning goes on after its closer, before the final strip. |
| Report.CleanTitleIdempotent | warhorn_scraper.py:122 | Cleaning a cleaned title changes nothing. |
| Report.SeatsLabel | warhorn_scraper.py:123-126 | The suffix is "seat left" exactly when one seat is open, and "seats left" otherwise, including 0 and negative counts. |
| Report.RenderSession | warhorn_scraper.py:121-126 | A bullet shows the session's open-seat count, its title cleaned of annotations and surrounding whitespace, and the seat label that count calls for. |
| Report.Lines | warhorn_scraper.py:121-126 | A heading's bullets are its sessions, rendered one by one in order. |
| Report.Venues | warhorn_scraper.py:113-118 | The venue names are exactly those of the listed sessions. |
| Report.GroupsFor | warhorn_scraper.py:116-121 | There is one group per venue name, in that order, holding that venue's sessions in feed order. |
| Report.GroupByVenue | warhorn_scraper.py:107-121 | Headings are strictly ascending, so each venue appears once. Each heading holds exactly its venue's sessions in feed order, none is empty, and every session has a heading. |
| Report.GroupMembership | warhorn_scraper.py:109-121 | A session appears under some heading exactly when it is among the listed sessions, and only under its own venue. |
| Report.RenderDigest | warhorn_scraper.py:117-126 | The printed body has one heading per group, in order, each with that group's venue and its bullets. |
| Report.ParseAll | warhorn_scraper.py:88-89 | Parsing the feed fails exactly when some entry fails. Otherwise it yields one session per entry, in feed order. |
| Report.Parsed | warhorn_scraper.py:88-89 | When every entry parses, the parsed sessions are one per entry, in feed order, each the result of parsing its entry. |
| Report.ListedOn | warhorn_scraper.py:109-112 | The sessions considered for the digest are exactly those of the chosen date whose open-seat count is not zero, negative counts included. They are in feed order, each as often as in the feed, and equal one filter by both conditions. |
| Report.FilterFilter | warhorn_scraper.py:110-116 | Filtering twice keeps what one filter by both conditions keeps, in the same order. |
| Report.Run | warhorn_scraper.py:84-126 | A digest is never for a date before today, and it lists only sessions of that date with a non-zero open-seat count. |
| Report.RunCrashesIffEntryFails | warhorn_scraper.py:88-89 | The run crashes exactly when some entry has no player count. |
| Report.Decide | warhorn_scraper.py:87-121 | Deciding on parsed sessions never crashes. A digest is never for a date before today and lists only sessions of that date with a non-zero open-seat count. |
| Report.DecideChoosesEarliestUpcoming | warhorn_scraper.py:87-101 | Deciding finds no upcoming day exactly when every dated session is before today. Otherwise it picks the earliest session date not before today. |
| Report.DecideKeepsFeedOrder | warhorn_scraper.py:109-121 | Each venue's sessions in the digest are exactly the feed's sessions with the chosen date, a non-zero open-seat count and that venue, in feed order and with their multiplicity. |
| Report.DecideListsExactlyOpenSessions | warhorn_scraper.py:109-121 | A session is listed exactly when it has the chosen date and a non-zero open-seat count, and only under its own venue. |
| Report.DigestPrintsOpenSeats | warhorn_scraper.py:117-126 | The printed headings are strictly ascending and none is empty. Every bullet shows a non-zero seat count, a title with no annotation, and "seat left" exactly when the count is one. |
| Report.OpenBullets | warhorn_scraper.py:121-126 | The bullets of sessions with open seats each show a non-zero count, a clean title and the matching label. |
| Report.AllDatesPast | warhorn_scraper.py:87-101 | Every grouped date is past exactly when every dated session is past. |
| Report.RunChoosesEarliestUpcoming | warhorn_scraper.py:87-101 | The "no entries" outcome happens exactly when every dated session is before today. Otherwise the digest date is the earliest session date not before today. |
| Report.RunKeepsFeedOrder | warhorn_scraper.py:109-121 | From the end-to-end run: each venue's bullets are the parsed sessions listed for that venue, in feed order. |
| Report.RunListsExactlyOpenSessions | warhorn_scraper.py:109-121 | A session is in the digest exactly when it has the digest's date and a non-zero open-seat count, negative counts included, and it appears only under its own venue. |
| Scenarios.WeekdayTokenRollover | warhorn_scraper.py:29-37 | `Wed 15/10` gives 15 October of this year in September, and of next year in November. |
| Scenarios.ThirtyFirstOfApril | warhorn_scraper.py:36-39 | `Thu 31/4` gives no date, and a parseable `published` does not take over. |
| Scenarios.LeapDay | warhorn_scraper.py:33-39 | `Sat 29/2` gives no date when it falls in 2025, and 29 February 2028 when the clock is in March 2027. |
| Scenarios.PublishedTimestamp | warhorn_scraper.py:41-44 | Without a token, `2024-03-05T10:00:00Z` gives 5 March 2024. |
| Scenarios.SpaceInsideQuotes | warhorn_scraper.py:62 | The `where` text `" a "` gives the location ` a `: whitespace inside the quotes survives. |
| Scenarios.SubculturesVenue | warhorn_scraper.py:60-62 | The `where` text `Subcultures @ Café Centraal, Utrecht` is shown under the heading `Café Centraal`. |
| Scenarios.TitleAnnotationsDropped | warhorn_scraper.py:122 | `Curse of Strahd [Tier 2] (Session 4)` is printed as `Curse of Strahd`. |
| Scenarios.Pluralisation | warhorn_scraper.py:123-126 | One open seat reads "seat left", and two or zero read "seats left". |
| Scenarios.TwoOpenSeats | warhorn_scraper.py:50-57 | `3/6 GM 10/12 players` gives 3 of 6 game masters, 10 of 12 players, and 2 open seats. |
| Scenarios.OverbookedSession | warhorn_scraper.py:81 | `5/3 players` gives −2 open seats, with no clamping. |

## Left out

- `fetch_feed` (warhorn_scraper.py:9-12) is not modelled because it is HTTP I/O plus the `feedparser` library.
  - An entry is a record of the fields the script reads, each optional.
  - `content` stands for the first content item's `value`.
  - `gdWhere` stands for the `gd_where` `valueString`.
  - A `gd_where` dictionary without `valueString` is the same as an absent one.
- An entry whose `content` list is present but empty makes `[0]` raise `IndexError` (warhorn_scraper.py:20). The model treats it like a missing list, whose content is empty, because an entry only records the first item's text.
- `html.unescape` is taken as a parameter `unescape`, because it is library code. Nothing is assumed about it.
- The clock reads are parameters:
  - `datetime.now()` (local year and month) becomes `Clock`;
  - `datetime.now(timezone.utc).date()` becomes `today`.
  - The two reads of the local clock are taken to agree, so a run across a month boundary is not modelled.
- The `strftime('%A %d %B')` header, every `print`, the separator line and the closing "Grab a seat" line are not modelled, because they are locale-dependent formatting and stdout. The decision is modelled as the returned `Outcome`: a date plus the listed sessions grouped by venue. `Report.RenderDigest` turns those groups into the printed headings and their (title, seats, suffix) bullets.
- `\d` and `int()` accept only the ASCII digits `0`-`9` here. Python also accepts other Unicode decimal digits, which a feed might in principle contain.
- Calendar.ParseIsoDate: accepts only zero-padded `YYYY-MM-DD`. `strptime` also accepts unpadded month and day fields such as `2024-3-5` within the ten characters, and that leniency is not modelled.
- Python's 4300-digit limit on `int()` of a string is not modelled, because no schedule count comes near it.
- A title given as a dictionary with a `value` field (warhorn_scraper.py:71-72) is modelled as the plain string it holds. The non-string title types that `strip()` would reject are not modelled.
- Entry.ExtractDate: its contract states only that the date is valid. Where the date comes from is stated by the lemmas `TokenDecides`, `TokenBeatsTimestamps`, `SummaryOnlyWithoutContent`, `PublishedShadowsUpdated`, `UpdatedWithoutPublished` and `TimestampFallback`.
- Entry.ParseEntry: its contract states what a parsed session holds and which extraction gives each field. When parsing fails is stated by `Entry.ParseEntryFailsWithoutPlayers`.
