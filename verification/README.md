# mgi-pulse: a verified model of its hard parts

mgi-pulse is a log navigator: it follows log files, reads their timestamps and
formats, filters records with a one-line query language, merges and searches
several sources, watches them for alerts, and draws a zoomable timeline. This
project states what those parts promise and proves it in Dafny. Check it with
`dafny verify dfyconfig.toml`.

Loops and mutable objects of the program are methods and classes here, each
proved equal to a pure function of its input or old state; lemmas then say what
that function means: an independent definition it agrees with, a round trip, an
invariant of every run, a quantity that is conserved.

| module | part of the system |
|---|---|
| `Common`, `Decimal` | shared vocabulary; decimal text, its value and its string order |
| `Calendar` | day numbers and Gregorian dates |
| `Rfc3339`, `PlainTime`, `PartialTime` | the three timestamp readers, the timestamp printers, and what a timestamp typed in part stands for |
| `Bookmarks` | the bounded bookmark sidecar and its eviction |
| `ThinkFilter` | the streaming filter for reasoning spans |
| `Query`, `QueryText`, `Predicates`, `FilteredView` | query text, predicate trees, the memo cache, the scan, and the view of a tab |
| `Merge`, `Tail`, `TailLines`, `Newest` | k-way merge, rotation-aware tail, backwards line reader, newest-matches search |
| `Collapse`, `Watch`, `RateLimiter` | repeat collapsing, the watch pipeline, the token bucket |
| `Syslog`, `SyslogText`, `Csv` | RFC 5424 and RFC 4180 text and the readers that invert it |
| `Zoom` | histograms and the zoom window |

## What the code does not keep

Where a documented or expected property fails for some inputs, the project
states the exact condition, and usually a witness:

- A fraction of ten or more digits can be read wrongly: the digits are
  accumulated in 32 bits (release arithmetic wraps), and the result is the
  truncated fraction if and only if the value fits 32 bits or only the first six
  digits survive the scaling anyway (`Rfc3339.FractionIsExactIff`).
- That reader checks no ranges: any two digits are a month, a day, an hour, a minute
  or a second. What it reads is printed as the same text again if and only if the
  stamp names a time of the calendar (`Rfc3339.PrintedBackIff`). The plain-text
  reader has neither flaw, but wants a digit behind the mark, so the two agree on a
  text if and only if it is a stamp with fields in range, such a digit and a
  fraction that fits (`PlainTime.ReadersAgreeOnText`).
- Printing and reading back a time works exactly for the years 0000 to 9999
  (`Rfc3339.FormatThenParse`). In those years printed stamps sort as their times
  do; behind them they do not (`Rfc3339.YearTenThousandWitness`).
- The logback reader copies into 32 bytes, so longer stamps are not read, and hands
  them to the reader that checks no ranges (`PlainTime.LogbackAgreesIff`).
- Not every value can be asked for in a query: backslashes stay in a quoted value, so
  one that holds a space or `)` and a quote cannot be written, nor can a field whose
  leading letters are a keyword, as in `OR.x` (`Query.AskableIff`).
- A syslog message whose last SD-ELEMENT has no parameters and an SD-ID ending in
  an odd run of backslashes is not recovered: the scan takes the closing bracket
  as escaped (`Syslog.HeaderRecoveredIff`). If MSG holds another bracket, the
  header is still read and projections are right; otherwise nothing is read
  (`Syslog.HeaderReadIff`, `Syslog.ProjectsParameter`).
- A projection key is cut at its first dot. A parameter of an element whose SD-ID
  holds a dot, as RFC 5424 allows, is then looked up under the part before the dot,
  and found if and only if that lookup gives the same (`Syslog.DottedParameterIff`,
  `Syslog.DottedProbeIff`); the parameter and the element of `[a.b k="v"]` are not
  found (`Syslog.DottedWitness`). An SD-ID that is called like a header field is
  shadowed by it (`Syslog.ProjectsHeader`, `Syslog.ShadowedProbeIff`).
- `tail_lines` can return fewer lines than the file has (`TailLines.TailIsExactIff`).
  A letter followed by a step of newlines, 65536 of them in the code, gives
  nothing; and so does a file without blank lines whose buffer happens to begin at
  a newline. Both are shown for every step. Its comment says `n + 1` newlines
  guarantee that the first kept line is complete, which holds, but not that `n`
  lines remain.
- Newest-matches search keeps the last matches of each source in file order. The
  result is right if and only if every match cut from its source has at least `k`
  matches behind it in time order (`Newest.NewestOfNewestIff`), as when every
  source is in time order; for one source this says that no cut match is later
  than a kept one (`Newest.OneSourceIff`), which the two records of
  `Newest.OutOfOrderWitness` do not meet.
- A truncated file that grows back past the read offset before the next poll is
  read from the middle. The delivered bytes come from a chain of generations, each
  read from its beginning, if and only if no byte of such a read is consumed
  (`Tail.OriginsChainedIff`, `Tail.RegrowthWitness`).
- The scrub cursor rounds the width of a bin down and the histogram does not, so the
  time under the cursor can lie in an earlier bin than the one it points at. It lies
  in that bin if and only if the loss up to there is at most half a rounded bin
  (`Zoom.CentreInItsBinIff`, `Zoom.CentreWitness`).
- Watch messages that differ only in a number can have different collapse keys: the
  first 256 characters are taken before numbers are folded, so a longer number hides
  more of the text behind it. They have one key if and only if the number starts
  past these characters, or what is seen behind it is folded alike
  (`Watch.NumbersMatterIff`, `Watch.LongNumberWitness`).
- The collapser takes its clock from the caller, and a replay hands it record times,
  which can go back. Emissions of one key are then a window apart if and only if the
  clock, once a window past one of its readings, stays so (`Collapse.SpacedIff`).
- Two watch rules can share a collapse key when one name followed by U+001F
  starts the other (`Watch.KeysTellRulesIff`). Then a rule can be charged for
  another one's events: a run of three events gives one rule three for its two and
  the other none for its one (`Watch.SharedKeyMiscounts`).
- A bookmark just saved can be the one evicted. It survives whatever order the hash
  map lists its entries in if and only if there is room or as many other entries
  have a strictly earlier stamp as have to go (`Bookmarks.SavedSurvivesIff`). That
  is one, unless the file that was loaded held more than the limit
  (`Bookmarks.SavedWithinLimitIff`). Stamps count whole seconds, so equal ones need
  no clock that went back.
- Under a clock that goes back a source can be missing that was saved after one that
  is held. No run with given times ends so if and only if no time has more than 256
  earlier ones that are later than itself (`Bookmarks.NewestIff`).
- A clock that goes back lets the rate limiter refill the same time twice
  (`RateLimiter.ClockGoingBackWitness`). What it grants is always bounded by the
  forward steps of the clock (`RateLimiter.GrantsAreBudgetedAnyClock`), and stays
  within tokens plus rate times length for every bucket if and only if these steps
  add up to no more than the length (`RateLimiter.BoundedIff`).

## Model

| member | source | states |
|---|---|---|
| Calendar.CivilAfterDays | pulse-tui/src/util.rs:74-85 | the date of the day number of any valid Gregorian date, of any year, is that date |
| Calendar.EveryDayHasADate | mgi-pulse-core/src/engine/parse.rs:241-248 | every integer is the day number of some valid date, by stepping from the epoch; independent of the inverse algorithm |
| Calendar.DaysAfterCivil | pulse-tui/src/util.rs:74-85 | the date computed for any integer is valid and has that day number, so the two algorithms are mutual inverses |
| Calendar.NextDayIsPlusOne | mgi-pulse-core/src/engine/parse.rs:241-248 | the next calendar day, by month lengths and leap years, is always exactly one more |
| Calendar.DayNumberOrders | mgi-pulse-core/src/engine/parse.rs:241-248 | dates in calendar order have day numbers in order, and conversely |
| Calendar.YearOfEraIsExact | pulse-tui/src/util.rs:78 | the quotient with its three corrections is the true year of the era for every day of every year |
| Rfc3339.ReadsEveryStamp | mgi-pulse-core/src/engine/parse.rs:150-227 | reading a printed timestamp gives back every field, fraction and zone |
| Rfc3339.AcceptsExactlyStamps | mgi-pulse-core/src/engine/parse.rs:150-227 | a text is accepted with a value if and only if it is a printed timestamp with that instant; nothing else is accepted |
| Rfc3339.ReadsLocalTime | mgi-pulse-core/src/engine/parse.rs:150-227 | for any instant and any offset of hours and minutes east or west, the clock of that instant moved by the offset, printed with that offset behind it, is read as the instant, cut to the millisecond |
| Rfc3339.FieldsRunOver | mgi-pulse-core/src/engine/parse.rs:150-227 | a stamp whose hour, minute, second or day is beyond its range is the time that many hours, minutes, seconds or days after the first of its month |
| Rfc3339.FractionIsExactIff | mgi-pulse-core/src/engine/parse.rs:177-196 | the fraction is its first six digits if and only if its value fits 32 bits or the scaling hides the lost part |
| Rfc3339.ParseRfc3339Micros | mgi-pulse-core/src/engine/parse.rs:150-227 | the cursor loops compute the reader's function on every text |
| Rfc3339.FractionLoop | mgi-pulse-core/src/engine/parse.rs:177-196 | the digit loop stops at the first non-digit with the wrapped and scaled fraction |
| Rfc3339.ZoneFields | mgi-pulse-core/src/engine/parse.rs:198-222 | exactly `Z` or a signed offset of two-digit hours and minutes, to the end of the text |
| Rfc3339.AsciiU32Loop | mgi-pulse-core/src/engine/parse.rs:229-238 | the decimal value modulo 2^32, or nothing on any other byte |
| Rfc3339.FormatThenParse | pulse-tui/src/util.rs:58-72 | printing and reading any instant gives it rounded down to the millisecond for the years 0 to 9999, and is rejected otherwise; no time is printed as a dash |
| Rfc3339.FormatShows | pulse-tui/src/util.rs:58-72 | for the years 0 to 9999, position by position: a valid date and a time of day whose day number, hours, minutes, seconds and milliseconds make up the instant cut to the millisecond |
| Rfc3339.PrintedBackIff | mgi-pulse-core/src/engine/parse.rs:150-227 | for any two-digit fields, a stamp that is read and printed again gives its own text if and only if it names a valid date and a time of day |
| Rfc3339.FormatKeepsOrder | pulse-tui/src/util.rs:58-72 | for the years 0 to 9999, printed stamps compare as strings exactly as their milliseconds do |
| Rfc3339.UnixSecondsKeepOrder | pulse-tui/src/bookmarks_store.rs:192-215 | for the years 0 to 9999, second-precision stamps compare as strings exactly as their times do, and are equal only for equal times |
| Rfc3339.UnixSecondsReadBack | pulse-tui/src/bookmarks_store.rs:192-215 | a second-precision stamp is the millisecond one without its fraction, and is read back as its second |
| Rfc3339.YearTenThousandWitness | pulse-tui/src/bookmarks_store.rs:192-215 | the stamps of the first day of the year 10000, by either printer, sort before those of the day that precedes it |
| PlainTime.LeadingReadsStamp | mgi-pulse-core/src/engine/parse_plain.rs:67-132 | of the stamps that the RFC 3339 reader accepts, the second reader consumes the whole and returns the true instant if and only if month, day, hour, minute and second are in range and the mark, if any, is followed by a digit; out of range it takes none |
| PlainTime.LeadingReadsAnyZone | mgi-pulse-core/src/engine/parse_plain.rs:67-132 | a local time with dashes or slashes, `T` or a space, comma or dot, and no zone, `Z` or an offset with or without its colon, is the instant the zone makes of it, and the text behind it is left |
| PlainTime.LeadingTakesIff | mgi-pulse-core/src/engine/parse_plain.rs:67-132 | a text is taken if and only if it begins with a clock whose fields are in range, its date in dashes or in slashes |
| PlainTime.ReadersAgreeIff | mgi-pulse-core/src/engine/parse_plain.rs:67-132 | on any such stamp the two readers agree if and only if this holds and the fraction fits 32 bits or starts with six zeros |
| PlainTime.ReadersAgreeOnText | mgi-pulse-core/src/engine/parse_plain.rs:67-132 | they agree on the whole of any text if and only if it is such a stamp |
| PlainTime.LeadingReadsLogback | mgi-pulse-core/src/engine/parse_plain.rs:67-132 | it reads the whole of a zoneless stamp with a comma or a dot as UTC if and only if the fields are in range and the mark is followed by a digit |
| PlainTime.LogbackAgreesIff | mgi-pulse-core/src/engine/parse_logback.rs:139-159 | on zoneless stamps the logback reader agrees with it if and only if that holds, the text is shorter than 32 bytes and the fraction fits |
| PlainTime.LeadingTimestamp | mgi-pulse-core/src/engine/parse_plain.rs:67-132 | the loops over end, micros and offset compute the reader's function on every text |
| PlainTime.ParseLogbackTs | mgi-pulse-core/src/engine/parse_logback.rs:139-159 | rewriting the stack buffer in place and handing it on computes the logback reader's function |
| Bookmarks.EvictsOldest | pulse-tui/src/bookmarks_store.rs:160-179 | whatever the map order, eviction stops at the limit, keeps whole entries, and drops none with a later stamp than a kept one |
| Bookmarks.RunHoldsNewest | pulse-tui/src/bookmarks_store.rs:135-179 | over any run of saves in which no time has more than 256 earlier ones that are later than itself, every entry is the last save of its source and no missing source was saved after a held one; a sidecar within its limit stays so |
| Bookmarks.NewestIff | pulse-tui/src/bookmarks_store.rs:135-179 | for given times, a sidecar that starts empty ends so after every run of saves and removals, for every order of the hash map, if and only if the times are of that kind, as those of a clock that does not go back are |
| Bookmarks.ForwardIsSeldomBack | pulse-tui/src/bookmarks_store.rs:192-215 | the times of a clock that never goes back are of that kind |
| Bookmarks.RunHoldsAllThatFit | pulse-tui/src/bookmarks_store.rs:135-179 | and without removals, under any clock, as many sources are held as were saved, up to the limit |
| Bookmarks.SavedSurvivesIff | pulse-tui/src/bookmarks_store.rs:135-179 | for a sidecar of any size, a save can be restored under every order of the hash map if and only if it has bookmarks, the file has not shrunk, and there is room or as many other stamps are strictly earlier as entries have to go |
| Bookmarks.SavedWithinLimitIff | pulse-tui/src/bookmarks_store.rs:135-179 | where the sidecar kept to its limit before, one strictly earlier stamp is enough, and needed |
| Bookmarks.SavedIsLostIff | pulse-tui/src/bookmarks_store.rs:135-179 | it is lost under every order if and only if it has no bookmarks, or there is no room and fewer others than have to go have a stamp that is not later |
| Bookmarks.Sidecar.Restore | pulse-tui/src/bookmarks_store.rs:111-130 | bookmarks come back exactly for the same inode and a file that has not shrunk; a stale entry is forgotten |
| Bookmarks.Sidecar.Upsert | pulse-tui/src/bookmarks_store.rs:135-158 | saves or removes the entry, for a sidecar of any size, and brings the map down to the limit after a save |
| Bookmarks.Sidecar.EvictIfOversize | pulse-tui/src/bookmarks_store.rs:160-179 | removing the front of the sorted list one by one gives the evicted map |
| ThinkFilter.NoEarlyStart | pulse-tui/src/llm.rs:307-312 | text before the longest suffix that could begin a tag holds no start of a tag, whatever text follows |
| ThinkFilter.DrainKeepsMeaning | pulse-tui/src/llm.rs:262-295 | each push gives out exactly the part of the visible text that later chunks cannot change |
| ThinkFilter.DrainSettles | pulse-tui/src/llm.rs:262-295 | after a push no whole tag is left and fewer characters are held than a tag has |
| ThinkFilter.FeedIsVisible | pulse-tui/src/llm.rs:262-303 | from any state between pushes, the rest of the outputs is the visible part of the rest of the text |
| ThinkFilter.ChunkingDoesNotMatter | pulse-tui/src/llm.rs:250-303 | however a text is cut into chunks, the outputs join to the batch result on the whole text |
| ThinkFilter.SpanIsDropped | pulse-tui/src/llm.rs:250-303 | the batch result drops a span from its opening tag to the first closing tag and keeps the rest in order |
| ThinkFilter.UnclosedSpanIsDropped | pulse-tui/src/llm.rs:297-303 | an opening tag that is never closed drops everything after it |
| ThinkFilter.PlainTextIsKept | pulse-tui/src/llm.rs:250-303 | text without an opening tag is kept whole |
| ThinkFilter.SpanText | pulse-tui/src/llm.rs:250-303 | the text between `<think>` and `</think>` goes with the tags, and what stands around it stays; without the closing tag all behind the opening one goes |
| ThinkFilter.Filter.Push | pulse-tui/src/llm.rs:262-295 | the draining loop leaves exactly the specified output, mode and buffer, and ends |
| ThinkFilter.Filter.Finish | pulse-tui/src/llm.rs:297-303 | gives out the held text outside a span and nothing inside one |
| ThinkFilter.FilterStream | pulse-tui/src/llm.rs:216-246 | pushing every chunk and finishing yields the visible part of the joined text |
| Query.CompilePrinted | mgi-pulse-core/src/engine/dsl.rs:58-188 | every writable tree, printed with parentheses only where NOT > AND > OR needs them, compiles to a predicate with the tree's own meaning on every record |
| Query.AskableIff | mgi-pulse-core/src/engine/dsl.rs:58-353 | some text compiles to the test that a field has a value if and only if the field is of field characters without a keyword in front, and the value is bare or has no live quote |
| QueryText.Precedence | mgi-pulse-core/src/engine/dsl.rs:71-129 | typed with `AND`, `OR`, `NOT` and parentheses, three clauses compile to the tree in which `NOT` binds tighter than `AND` and `AND` tighter than `OR`; a chain of one connective is one node |
| QueryText.ClauseText | mgi-pulse-core/src/engine/dsl.rs:131-174 | each operator as typed: `=` and `!=` always compile, `~` if and only if the pattern is accepted, and a comparison if and only if the field is `ts` and the value a readable time; otherwise the error says which |
| QueryText.MarkedText | mgi-pulse-core/src/engine/dsl.rs:300-353 | a value in quotes may hold anything but a live quote, and a pattern in slashes anything but a live slash |
| QueryText.EscapedMark | mgi-pulse-core/src/engine/dsl.rs:300-353 | a mark behind a backslash does not end the value, and the backslash stays in it |
| QueryText.FieldFitsIff | mgi-pulse-core/src/engine/dsl.rs:251-275 | a field is of letters, digits and `_ . @ -`, and begins with no keyword that ends there or goes on with something that is no letter |
| QueryText.TrailingText | mgi-pulse-core/src/engine/dsl.rs:58-69 | behind an expression only spaces may follow, or the query is refused; spaces alone are the empty query |
| QueryText.MissingClose | mgi-pulse-core/src/engine/dsl.rs:113-129 | a group that is not closed is refused |
| QueryText.ClauseRefused | mgi-pulse-core/src/engine/dsl.rs:131-298 | a clause is refused, by name, that begins with a keyword or with no field, or whose field is followed by no operator, or whose operator by nothing |
| PartialTime.PartialIsLeast | mgi-pulse-core/src/engine/dsl.rs:176-188 | the first 4, 7, 10, 13, 16 or 19 characters of any printed stamp stand for the least instant whose stamp begins with them |
| PartialTime.QueryOnPrefix | mgi-pulse-core/src/engine/dsl.rs:131-188 | each of the four comparisons of `ts` with such characters compiles to the comparison with that instant |
| PartialTime.SpaceDoesNotMatter | mgi-pulse-core/src/engine/dsl.rs:176-188 | space around a partial timestamp changes nothing |
| PartialTime.WholeStamp | mgi-pulse-core/src/engine/dsl.rs:176-188 | a whole stamp is what the RFC 3339 reader reads |
| Query.ReadsOr | mgi-pulse-core/src/engine/dsl.rs:71-85 | the same for a printed tree inside a longer text: the parser stops exactly behind it |
| Query.ReadsOrItems | mgi-pulse-core/src/engine/dsl.rs:71-85 | a printed chain of OR gives its conjuncts in order, then goes on with what follows |
| Query.ReadsAndItems | mgi-pulse-core/src/engine/dsl.rs:87-101 | a printed chain of AND gives its parts in order, then goes on with what follows |
| Query.ReadsUnary | mgi-pulse-core/src/engine/dsl.rs:103-129 | a printed negation, group or clause is read as one unit |
| Query.ReadsClause | mgi-pulse-core/src/engine/dsl.rs:131-174 | field, operator and bare, quoted or slashed value are read back as written |
| Query.OrKeepsMeaning | mgi-pulse-core/src/engine/dsl.rs:71-85 | the flattened disjunction holds of exactly the records the tree describes |
| Query.AndKeepsMeaning | mgi-pulse-core/src/engine/dsl.rs:87-101 | the flattened conjunction holds of exactly the records the tree describes |
| Query.UnaryKeepsMeaning | mgi-pulse-core/src/engine/dsl.rs:103-174 | so do negations, groups and single clauses of every operator |
| Query.CompileQuery | mgi-pulse-core/src/engine/dsl.rs:58-69 | the token-by-token parser computes the grammar's function on every text, errors included, and accepts only when all input is consumed |
| Query.ParseOrTokens | mgi-pulse-core/src/engine/dsl.rs:71-85 | the loop agrees with the grammar and always moves on, so parsing ends |
| Query.ParseAndTokens | mgi-pulse-core/src/engine/dsl.rs:87-101 | the same for AND |
| Query.ParseUnaryTokens | mgi-pulse-core/src/engine/dsl.rs:103-111 | the same for NOT |
| Query.ParseAtomTokens | mgi-pulse-core/src/engine/dsl.rs:113-129 | the same for groups and clauses |
| Query.Tokenizer.Field | mgi-pulse-core/src/engine/dsl.rs:251-275 | reads the longest run of field characters, refusing keywords and nothing |
| Query.Tokenizer.Value | mgi-pulse-core/src/engine/dsl.rs:300-353 | reads a quoted, slashed or bare value and leaves the rest |
| Predicates.SeverityMask | mgi-pulse-core/src/engine/predicate.rs:186-206 | the bit mask keeps exactly the given levels |
| Predicates.FieldCache.Get | mgi-pulse-core/src/engine/format.rs:569-598 | the memo answers every lookup, absent fields included, with the direct projection, and stays faithful |
| Predicates.FieldCache.Reset | mgi-pulse-core/src/engine/format.rs:613-616 | a new line starts with an empty memo and the same format |
| Predicates.Matches | mgi-pulse-core/src/engine/predicate.rs:29-273 | evaluation through the shared memo, with short-circuits, gives the verdict of direct projection for every tree |
| Predicates.FirstWith | mgi-pulse-core/src/engine/predicate.rs:235-273 | And and Or stop at the first deciding part and nowhere else |
| Predicates.Scan | mgi-pulse-core/src/engine/query.rs:22-51 | returns exactly the ids of the matching lines, strictly ascending, across format switches and resets |
| Predicates.SyslogLine | mgi-pulse-core/src/engine/format.rs:569-598 | a syslog line that prints a well-formed message answers every key from the parts of the message |
| Predicates.SeparatedLine | mgi-pulse-core/src/engine/format.rs:569-598 | a CSV or TSV record with headers answers a header name with the value in the first such column, `_n` with the n-th value, and nothing else |
| Predicates.UnattachedLine | mgi-pulse-core/src/engine/format.rs:569-598 | without headers or a pattern such a line answers nothing; with its pattern, the captured group |
| Predicates.OwnParserLine | mgi-pulse-core/src/engine/format.rs:569-598 | a line of any other format answers what its own parser gives |
| Predicates.SelectsSyslogField | mgi-pulse-core/src/engine/query.rs:22-69 | a field test selects a syslog line if and only if the message it prints has that value there |
| Predicates.SelectsOtherField | mgi-pulse-core/src/engine/query.rs:22-69 | the same for lines of the other formats, by their own parsers; lines of CSV, TSV and pattern sources, to which a scan attaches nothing, never |
| Predicates.SelectsByTime | mgi-pulse-core/src/engine/query.rs:36-69 | a time comparison selects the lines whose entry in the time column is a time that compares so |
| Predicates.SelectsBySeverity | mgi-pulse-core/src/engine/query.rs:36-69 | a severity filter selects the lines whose entry in the severity column is one of the levels; beyond the column the level is 0 |
| Predicates.SelectsByBytes | mgi-pulse-core/src/engine/query.rs:36-69 | a line pattern selects by the bytes alone |
| FilteredView.View.RebuildView | pulse-tui/src/app/mod.rs:302-393 | the view holds exactly the lines every active filter accepts, in file order; a pattern or query that does not compile leaves the old view |
| FilteredView.ShownLines | pulse-tui/src/app/mod.rs:302-393 | over the indexed columns: a line is shown if and only if its bytes match, every field test and the query select it, its level is listed or, in minimum mode, not below the lowest listed, and its time lies in the range, both ends included |
| FilteredView.TypedWithSpace | pulse-tui/src/app/mod.rs:451-466 | a query typed with space around it is the query without |
| FilteredView.View.SetDsl | pulse-tui/src/app/mod.rs:451-466 | a query that does not compile changes nothing; an empty one clears the slot; otherwise the view is rebuilt for it |
| FilteredView.Compose | pulse-tui/src/app/mod.rs:312-352 | the conjunction built filter by filter says of every record what the filters say together |
| FilteredView.ExpandMin | pulse-tui/src/app/mod.rs:58-71 | exactly the given severities and all from the lowest of them up to FATAL |
| FilteredView.PrintedQueryFilters | pulse-tui/src/app/mod.rs:334-342 | a typed query narrows the view by exactly the meaning of its tree |
| Merge.RunInterleaves | mgi-pulse-core/src/io/merge.rs:88-112 | the records of each producer appear in the output whole, once and in their order |
| Merge.RunNumbers | mgi-pulse-core/src/io/merge.rs:106-111 | as many records come out as went in, each as it was but for its line id, which counts from the counter on without gaps |
| Merge.RunEmitsHeads | mgi-pulse-core/src/io/merge.rs:48-112 | each emitted record is the least, by time and then producer, of the heads at that moment |
| Merge.RunIsSorted | mgi-pulse-core/src/io/merge.rs:48-112 | sorted producers give a sorted output with ties in producer order |
| Merge.RunIsSortedIff | mgi-pulse-core/src/io/merge.rs:48-112 | the merged records, and so their line ids, are in time order with ties in producer order if and only if every producer is in time order |
| Merge.MergeProducer.Next | mgi-pulse-core/src/io/merge.rs:89-112 | hands out the winner, takes it from its producer and replenishes the heap, or ends when nothing is left |
| Merge.MergeProducer.Prime | mgi-pulse-core/src/io/merge.rs:75-85 | one buffered head for every producer that has one, nothing lost |
| Merge.MergeProducer.Pop | mgi-pulse-core/src/io/merge.rs:48-57 | a slot no other comes before, by the inverted comparison |
| Merge.DrainAll | mgi-pulse-core/src/io/merge.rs:88-112 | draining the object yields the specified run for any producers |
| Tail.DeliversPieces | mgi-pulse-core/src/io/tail.rs:117-152 | in every interleaving of growth, truncation, replacement and reads in which no byte of a fooled read is consumed, the consumed bytes are contiguous pieces of ever newer generations, the first from the opening offset, the others from 0 |
| Tail.OriginsChainedIff | mgi-pulse-core/src/io/tail.rs:117-231 | in every run each delivered byte is the one at its recorded file, generation and offset, and these form a chain from the opening offset, each newer generation from 0, if and only if no byte of a fooled read was consumed |
| Tail.HonestStep | mgi-pulse-core/src/io/tail.rs:117-231 | every step of the disk and of the reader, fooled or not, keeps the recorded origins true |
| Tail.GrowthDeliversAll | mgi-pulse-core/src/io/tail.rs:209-231 | under growth alone no rotation fires, every byte after the opening offset is delivered once and in order, and nothing is held back at end of file |
| Tail.RotationDeliversAll | mgi-pulse-core/src/io/tail.rs:117-231 | when the path names a file with another inode, or one shorter than what was consumed, a check turns to it, and under growth alone every byte of it is delivered from the first on, once and in order |
| Tail.StepKeeps | mgi-pulse-core/src/io/tail.rs:117-231 | the invariant of the pieces survives every step of the disk and of the reader, a read with bytes still buffered included, except a fooled read |
| Tail.FooledReadSkips | mgi-pulse-core/src/io/tail.rs:88-96 | a fooled read fills the buffer from the middle of a newer generation, with which no chain goes on |
| Tail.RegrowthWitness | mgi-pulse-core/src/io/tail.rs:88-96 | a concrete run whose bytes are no chain of pieces at all |
| Tail.TailReader.constructor | mgi-pulse-core/src/io/tail.rs:42-70 | opens what the path names with an empty buffer, at its end or at its start |
| Tail.TailReader.CheckRotation | mgi-pulse-core/src/io/tail.rs:117-152 | reopens at 0, with an empty buffer, if and only if the path names another inode or a file shorter than what was consumed, and otherwise changes nothing |
| Tail.TailReader.FillBuf | mgi-pulse-core/src/io/tail.rs:209-224 | the read-poll-wait loop gives the next nonempty buffer, or once stopped what one more read finds, and never skips a poll |
| Tail.FillIsRun | mgi-pulse-core/src/io/tail.rs:209-224 | a call of the waiting loop, the read after a stop included, is a run in which the reader only reads and checks, so the results about runs hold of what its callers consume |
| Tail.TailReader.Consume | mgi-pulse-core/src/io/tail.rs:226-231 | the position moves by exactly the bytes taken |
| TailLines.TailIsSegment | pulse-tui/src/inspect.rs:285-315 | for any step and cap, the result is a contiguous end segment of the nonblank lines, never more than `n` |
| TailLines.TailIsExactIff | pulse-tui/src/inspect.rs:285-315 | it is the last `min(n, total)` lines if and only if the loop read back to 0, or the newlines outnumber the blank pieces by `n`, or there is nothing to return |
| TailLines.TailIsExactOnCount | pulse-tui/src/inspect.rs:299-302 | stopping on the newline count with at most one blank piece is enough |
| TailLines.BlankLinesWitness | pulse-tui/src/inspect.rs:285-315 | for every step of at least two bytes, the 65536 of the code included: a letter and a step of newlines has one line, and none is returned |
| TailLines.CutAtNewlineWitness | pulse-tui/src/inspect.rs:285-315 | for every step of at least three bytes: a file without blank lines whose last line is lost because the buffer begins at a newline |
| TailLines.CutLines | pulse-tui/src/inspect.rs:303-311 | cutting a text anywhere touches only the first line after the cut |
| TailLines.SplitJoins | pulse-tui/src/inspect.rs:303-307 | the pieces hold no newline and join back to the text |
| TailLines.LinesOfFile | pulse-tui/src/inspect.rs:303-307 | the lines of a file are the nonblank ones that were written, without their newline or carriage return and newline, and an unended last one |
| TailLines.StopsAtFirst | pulse-tui/src/inspect.rs:285-302 | reading back stops after the first number of steps that reads the whole file or the cap, or more than `n` newlines |
| TailLines.TailLines | pulse-tui/src/inspect.rs:285-315 | the backwards loop over a growing buffer computes that result |
| Newest.SortStable | pulse-tui/src/mcp.rs:557 | sorting keeps the order of equal times |
| Newest.SortedStableUnique | pulse-tui/src/mcp.rs:557 | a sorted, stable order is the only one |
| Newest.DropShows | pulse-tui/src/mcp.rs:557-559 | a hit stands exactly as far from the end of the sorted list as there are hits behind it, and dropping it changes nothing else |
| Newest.CutOneSource | pulse-tui/src/inspect.rs:189-217 | cutting one source to its newest `k` does not change the newest `k` overall |
| Newest.NewestOfNewest | pulse-tui/src/mcp.rs:545-559 | when every cut match has `k` matches behind it, the newest `k` of all sources are found from the newest `k` of each, equal matches included |
| Newest.NewestOfNewestIff | pulse-tui/src/mcp.rs:545-559 | with matches told apart by their place, this is so if and only if every match cut from its source has at least `k` matches behind it |
| Newest.SortFiltered | pulse-tui/src/mcp.rs:557 | stably sorting a selection is selecting from the sorted list |
| Newest.OldCutsAreBehind | pulse-tui/src/inspect.rs:189-217 | the condition holds when no source cuts a match later than one it keeps |
| Newest.SortedCutsAreBehind | pulse-tui/src/inspect.rs:189-217 | and so when every source is in time order |
| Newest.OneSourceIff | pulse-tui/src/inspect.rs:189-217 | for one source this holds if and only if no cut match is later than a kept one |
| Newest.OutOfOrderWitness | pulse-tui/src/inspect.rs:189-217 | a source of two records out of time order that does not meet it |
| Newest.Search | pulse-tui/src/inspect.rs:183-217 | the bounded queue holds the last `limit` admitted matches and the total counts them all |
| Newest.MatchingIff | pulse-tui/src/inspect.rs:116-126 | the admitted matches of a list are those of its parts, and a record is admitted if and only if the window has no bound, or it has a time at or after `since` and before `until`; and the predicate takes it |
| Newest.WindowsTile | pulse-tui/src/inspect.rs:116-126 | the matches of a window are exactly those of its two parts around any moment in it, each in one of them |
| Newest.SearchAll | pulse-tui/src/mcp.rs:539-575 | over all sources: the stable sort of the per-source newest cut to `limit`; the true newest if and only if the condition on cut matches holds, as when every source is in time order; the true total, and the skipped names |
| Newest.SourcesIff | pulse-tui/src/mcp.rs:545-556 | standard input is skipped by name, and every other source is searched, in order |
| Collapse.Collapser.Offer | pulse-tui/src/collapse.rs:57-87 | verdict, new table and reported summaries for every table, key and clock, also at the key cap |
| Collapse.Collapser.Flush | pulse-tui/src/collapse.rs:89-93 | every expired entry with repeats is reported once, after what was already closed |
| Collapse.Collapser.Finish | pulse-tui/src/collapse.rs:95-102 | every open entry with repeats is reported once and nothing stays |
| Collapse.Collapser.Expire | pulse-tui/src/collapse.rs:104-116 | exactly the entries whose window is over leave the table |
| Collapse.OfferConserves | pulse-tui/src/collapse.rs:57-87 | a repeat adds one to the repeats held, and an emission moves held repeats to summaries without loss, for any set of keys |
| Collapse.TrackedIff | pulse-tui/src/collapse.rs:69-86 | a new occurrence gets a window if and only if fewer than ten thousand other keys have one that is not over |
| Collapse.OpenWindowCounts | pulse-tui/src/collapse.rs:57-68 | while a window is open, through any calls for any keys, its entry keeps start and sample, counts every occurrence of its key and holds the latest |
| Collapse.SummaryTellsRun | pulse-tui/src/collapse.rs:57-128 | from an opening occurrence through any calls to the flush behind its window: one summary with the number of repeats, the opening occurrence and the latest, or none if there were no repeats |
| Collapse.ReportsAll | pulse-tui/src/collapse.rs:118-128 | summaries carry exactly the repeats of the entries they close |
| Collapse.EmitsAreSpaced | pulse-tui/src/collapse.rs:57-116 | in any run whose clock, once a window past one of its readings, stays so, two emissions of one key are a window apart unless the first met a full table |
| Collapse.SpacedIff | pulse-tui/src/collapse.rs:57-116 | for given times of the calls, a fresh collapser spaces its emissions, whatever is offered and flushed, if and only if the clock is of that kind, as one that does not go back is |
| Collapse.LaterEmits | pulse-tui/src/collapse.rs:57-116 | a key tracked since a time is not emitted again before that time plus the window, when the clock stays past that once it is there |
| Collapse.RunCalls | pulse-tui/src/collapse.rs:49-116 | the object itself keeps that spacing over any script of offers and flushes |
| Watch.NormalizeMessage | pulse-tui/src/util.rs:116-131 | the loop over the first 256 characters folds each digit run to one mark |
| Watch.NumbersMatterIff | pulse-tui/src/util.rs:114-131 | messages of any length that differ only in a number have one key if and only if the number starts past 256 characters or what is seen behind the two is folded alike |
| Watch.NumbersDoNotMatter | pulse-tui/src/util.rs:114-131 | so they have one key when the numbers are equally long or both messages have at most 256 characters |
| Watch.LongNumberWitness | pulse-tui/src/util.rs:116-131 | two messages that differ only in a number and have different keys |
| Watch.NormalizedText | pulse-tui/src/util.rs:114-131 | text without digits is kept, up to 256 characters, and a number in it becomes one mark |
| Watch.KeysTellRulesIff | pulse-tui/src/watch.rs:232-239 | two rules never share a key if and only if neither name with the separator starts the other |
| Watch.KeysTellMessages | pulse-tui/src/watch.rs:232-239 | for one rule, and source names without the separator, two keys are equal if and only if the source names and the normalized messages are |
| Watch.KeysTellRecords | pulse-tui/src/watch.rs:232-239 | with names apart, records of any rules share a key if and only if rule, source and normalized message are the same |
| Watch.SharedKeyMiscounts | pulse-tui/src/watch.rs:214-273 | for any such pair of names, every run of three given events charges one rule with three for its two events and the other with none for its one |
| Watch.OwnerOfKey | pulse-tui/src/watch.rs:232-239 | with such names the rule can be read off every key |
| Watch.FindRule | pulse-tui/src/watch.rs:214-222 | the first matching rule wins |
| Watch.FirstRuleIff | pulse-tui/src/watch.rs:214-222 | the rule that takes an event is the first in order that matches, or none does |
| Watch.RuleReads | pulse-tui/src/watch.rs:214-222 | what a rule reads of an event: its time, its severity, its bytes, and a field by the format of the source |
| Watch.Watcher.OnEvent | pulse-tui/src/watch.rs:214-252 | the notices and the new table are those of a tick and an offer for the first matching rule; with names apart, a matching event is answered with a Match if and only if the window is zero or no window is open for the same rule, source and normalized message; in total, and per rule when names are apart, notices plus repeats still held grow by exactly the matching event |
| Watch.Watcher.Tick | pulse-tui/src/watch.rs:254-257 | moves held repeats into notices without loss |
| Watch.Watcher.Finish | pulse-tui/src/watch.rs:259-262 | every repeat still held becomes a notice |
| Watch.RunPlan | pulse-tui/src/watch.rs:444-498 | every run is a sequence of the specified turns; with any clock and at the key cap, matching events equal matches plus repeat counts, in total and per rule with names apart, and every counter is exact |
| Watch.AnsweredAtOnceIff | pulse-tui/src/watch.rs:214-252 | that a matching event is answered exactly then, for every table the watcher can hold |
| Watch.RunAnswersIff | pulse-tui/src/watch.rs:214-273 | and so for every event of every run |
| RateLimiter.Limiter.TryTake | pulse-tui/src/telegram.rs:271-282 | grants, refills and waits as specified and keeps the tokens between zero and the cap |
| RateLimiter.BurstIsPerMinute | pulse-tui/src/telegram.rs:259-282 | of any number of takes at one moment, a fresh limiter grants as many as it allows per minute, at least one, and no more |
| RateLimiter.RefillIsPerMinute | pulse-tui/src/telegram.rs:259-282 | after that, a take some microseconds later is granted if and only if that part of a minute holds a whole message |
| RateLimiter.RunKeepsValid | pulse-tui/src/telegram.rs:259-282 | tokens stay between zero and the cap over any run |
| RateLimiter.GrantsAreBudgeted | pulse-tui/src/telegram.rs:271-282 | with a clock that does not go back, grants never exceed the tokens plus rate times length |
| RateLimiter.GrantsAreBudgetedAnyClock | pulse-tui/src/telegram.rs:271-282 | with any clock, grants never exceed the tokens plus rate times the sum of its forward steps |
| RateLimiter.BoundedIff | pulse-tui/src/telegram.rs:271-282 | for any clock, every bucket grants at most its tokens plus rate times a given length if and only if the forward steps of the clock add up to at most that length |
| RateLimiter.GrantsInInterval | pulse-tui/src/telegram.rs:271-282 | inside any interval, after any history, grants never exceed cap plus rate times length |
| RateLimiter.WaitIsLeast | pulse-tui/src/telegram.rs:276-281 | the wait of a refusal is exactly the least number of microseconds after which a take succeeds |
| RateLimiter.ClockGoingBackWitness | pulse-tui/src/telegram.rs:271-282 | a clock that goes back breaks the bound |
| Syslog.HeaderRecoveredIff | mgi-pulse-core/src/engine/parse_syslog.rs:77-142 | a well-formed message of RFC 5424 is recovered field by field if and only if its last element does not hide its closing bracket |
| Syslog.HeaderReadIff | mgi-pulse-core/src/engine/parse_syslog.rs:77-142 | the header is read at all if and only if that bracket is visible or MSG ends the region; then all tokens are recovered and the region begins with the printed elements, and a region that goes on into MSG leaves less than all of it |
| Syslog.SdRecoveredIff | mgi-pulse-core/src/engine/parse_syslog.rs:167-200 | the same for the structured data region alone |
| Syslog.BlocksOfElements | mgi-pulse-core/src/engine/parse_syslog.rs:167-200 | what the bracket scan leaves, for every list of elements, hidden brackets included |
| Syslog.HiddenBracketWitness | mgi-pulse-core/src/engine/parse_syslog.rs:167-200 | a well-formed message that is not recovered |
| Syslog.UnescapeEscaped | mgi-pulse-core/src/engine/parse_syslog.rs:281-364 | unescaping inverts the escaping of section 6.3.3 of RFC 5424 and stops at the quote |
| Syslog.ProjectSdIsLookup | mgi-pulse-core/src/engine/parse_syslog.rs:281-364 | walking the printed elements, whatever follows them that begins no block, finds what a lookup in the element list finds |
| Syslog.ProjectsParameter | mgi-pulse-core/src/engine/parse_syslog.rs:251-364 | for every SD-ID, `ID.name` of a printed message is the first such parameter's unescaped value if and only if there is none and the header is not read, or the header is read and the ID has no dot or the lookup its first dot makes gives the same |
| Syslog.ProjectsDottedKey | mgi-pulse-core/src/engine/parse_syslog.rs:251-364 | any key with a dot gives the lookup for the parts before and behind its first dot when the header is read, and nothing otherwise |
| Syslog.DottedParameterIff | mgi-pulse-core/src/engine/parse_syslog.rs:281-290 | a parameter of a dotted SD-ID is projected right if and only if the element named by the part before the dot gives the same for the rest |
| Syslog.DottedProbeIff | mgi-pulse-core/src/engine/parse_syslog.rs:281-290 | the same for a bare dotted SD-ID |
| Syslog.DottedWitness | mgi-pulse-core/src/engine/parse_syslog.rs:281-290 | a well-formed element with a dotted SD-ID, and neither it nor its parameter is found |
| Syslog.ProbesElement | mgi-pulse-core/src/engine/parse_syslog.rs:251-364 | a bare SD-ID, unless it is called like a header field, answers whether such an element is present if and only if there is none and the header is not read, or the header is read and the ID has no dot or the lookup its first dot makes gives the same |
| Syslog.ProjectsHeader | mgi-pulse-core/src/engine/parse_syslog.rs:251-279 | a header key gives the printed token, NIL as nothing, when the header is read and nothing otherwise; MSG is given whole if and only if the last bracket is visible; no such key but `msg` ever answers as the probe of an element that is present |
| Syslog.ShadowedProbeIff | mgi-pulse-core/src/engine/parse_syslog.rs:251-279 | a probe of an SD-ID called like a header field other than `msg` is right if and only if there is no such element and the header, if read, has nothing there |
| Syslog.IndexesPrintedTime | mgi-pulse-core/src/engine/parse_syslog.rs:205-236 | a message with a printed time is indexed at that time and severity exactly when its header is read, and as untimed and unknown otherwise |
| Syslog.LevelOfPri | mgi-pulse-core/src/engine/parse_syslog.rs:205-279 | the level of a message whose header is read is that of the last three bits of its PRI, name by name and number by number |
| Syslog.ProjectsAnswer | mgi-pulse-core/src/engine/parse_syslog.rs:251-364 | every key of every printed message answers from the parts of the message: the token, MSG, or the lookup at the first dot |
| SyslogText.HeaderKeys | mgi-pulse-core/src/engine/parse_syslog.rs:251-279 | on a line as written, each of the five token keys answers with its token, a lone `-` as nothing, and `msg` with all the text behind the structured data |
| SyslogText.ParameterKey | mgi-pulse-core/src/engine/parse_syslog.rs:251-364 | on a line as written, `id.name` answers with the value in which an escaped quote, backslash or bracket is plain again |
| SyslogText.LaidIsTaken | mgi-pulse-core/src/engine/parse_syslog.rs:77-142 | a line of two numbers and five words is taken if and only if structured data or nothing follows, with those words and the severity of the first number |
| SyslogText.HeaderTakesIff | mgi-pulse-core/src/engine/parse_syslog.rs:77-142 | any line is taken if and only if it is laid out so, the first number below 2^32 |
| SyslogText.PrintedText | mgi-pulse-core/src/engine/parse_syslog.rs:77-142 | the parts of a message in their order on the line |
| Syslog.ParseHeaderLoop | mgi-pulse-core/src/engine/parse_syslog.rs:77-142 | the cursor over the header computes the reader's function on every line |
| Syslog.NextSpToken | mgi-pulse-core/src/engine/parse_syslog.rs:145-159 | the token up to the next space, which is taken, or a refusal |
| Syslog.ReadStructuredData | mgi-pulse-core/src/engine/parse_syslog.rs:167-200 | NIL or the bracketed blocks, with escapes, and where they end |
| Syslog.ProjectStructuredData | mgi-pulse-core/src/engine/parse_syslog.rs:281-364 | the nested cursor loops compute the projection on every text |
| Csv.SplitInvertsEncoding | mgi-pulse-core/src/engine/parse_csv.rs:57-110 | splitting an RFC 4180 record gives back its field values, for both delimiters, quoted or bare, empty in any position |
| Csv.SplitRecord | mgi-pulse-core/src/engine/parse_csv.rs:57-110 | the nested loops compute the split on every line, well-formed or not |
| Csv.QuotedLoop | mgi-pulse-core/src/engine/parse_csv.rs:72-95 | doubled quotes become one and the field ends at a lone quote |
| Csv.ProjectsNamedColumn | mgi-pulse-core/src/engine/parse_csv.rs:161-180 | a named column of an encoded record is that field's value |
| Csv.ProjectsPosition | mgi-pulse-core/src/engine/parse_csv.rs:161-180 | `_n` and `_+n` are the n-th field, counted from one, when no header has that name |
| Csv.ThreeColumns | mgi-pulse-core/src/engine/parse_csv.rs:57-110 | on a line as written, with commas or tabs: three values, the middle one in quotes with anything in it and its doubled quote single |
| Csv.TornQuotes | mgi-pulse-core/src/engine/parse_csv.rs:57-110 | text behind a closing quote is a column of its own, and an unclosed quote runs to the end of the line |
| Zoom.BuildOver | mgi-pulse-core/src/engine/histogram.rs:92-149 | the bounds are the earliest and one past the latest time; each count is the number of places of the view whose line has its time in that part of them, by exact products, and every line of the view is in exactly one part or counted as untimed |
| Zoom.BuildOverRange | mgi-pulse-core/src/engine/histogram.rs:157-196 | cut into equal parts, each count is the number of places of the view whose line has its time in that part, by exact products; together they are those of the window, and the untimed are counted apart |
| Zoom.ZoomKeepsSpan | pulse-tui/src/app/mod.rs:907-956 | despite clamping, the window has exactly half the span, at least one, or double, and starts as near to half of it before the anchor as the full range allows; the zoom is dropped exactly when the request covers the range |
| Zoom.CursorStaysInView | pulse-tui/src/app/mod.rs:895-938 | the time under the cursor lies in the drawn window and in the next one |
| Zoom.CentreInItsBinIff | pulse-tui/src/app/mod.rs:895-905 | that time lies in the bin the cursor points at if and only if what rounding the bin width down lost up to there is at most half a rounded bin; else in an earlier one |
| Zoom.CentreWitness | pulse-tui/src/app/mod.rs:895-905 | ten microseconds in four bins: the centre of the last lies in the third |
| Zoom.RunStaysInside | pulse-tui/src/app/mod.rs:884-970 | after any sequence of steps the window lies in the full range and is narrower |
| Zoom.StepsOutIsLog | pulse-tui/src/app/mod.rs:907-956 | the number of zoom-outs is the least `n >= 1` with span times 2^n at least the full span |
| Zoom.ZoomOutEnds | pulse-tui/src/app/mod.rs:907-956 | repeated zoom-out, wherever the cursor is, doubles the span and drops the zoom at exactly that step |
| Zoom.FullRange | pulse-tui/src/app/mod.rs:912-933 | the earliest and latest timed record of the engine, or nothing |
| Zoom.App.HandleScrubZoom | pulse-tui/src/app/mod.rs:884-970 | one key press zooms around the centre of the bin under the cursor, or the middle one, from the span of the window or of the drawn bounds, keeps or sets the cursor and invalidates the drawn histogram, or changes nothing |
| Zoom.App.Draw | pulse-tui/src/app/mod.rs:474-490 | the zoomed histogram is built every time and the other one when there is none, and the bounds drawn are those of the window or of the view |
| Zoom.App.Press | pulse-tui/src/app/mod.rs:884-970 | behind one key press the redrawn histogram has the bounds of the new window, and the time that was under the cursor is in it unless the zoom is dropped |
| Zoom.App.PressKeys | pulse-tui/src/app/mod.rs:884-970 | any key presses with their redraws are a run of the steps above, what is drawn is always the window, and the stated number of zoom-outs shows everything again |

## Left out

- Terminal UI, panes, themes, key dispatch, tabs and status messages: rendering only.
- HTTP, the Telegram and model APIs, JSON-RPC, the journal subprocess, configuration and decompression: calls into other systems.
- Memory mapping, threads, channels and sleeping: sources are byte strings, and waiting is an explicit sequence of turns.
- The two regex engines, on bytes and on text, and the JSON, logfmt, EDN, Python, access-log, logback and journal field parsers: parameters of the model (`Predicates.Library`).
- Bytes above ASCII: a byte is a character, so char boundaries, lossy decoding and Unicode whitespace (where `peek_kw` and `skip_ws` differ) are not modelled.
- 64-bit overflow: times, offsets, counters and zoom arithmetic are unbounded integers, except the saturating differences of the collapser and the limiter, the 32-bit fraction, and the wrapping view generation.
- Debug builds panic where 32-bit fraction arithmetic overflows; the release wrap-around is modelled. They can also panic on day 00 in March, as in `2001-03-00T00:00:00Z`, where the day of the year is -1 and becomes a huge unsigned number that the sum overflows; in a release build the sum wraps back to the integer modelled here.
- Floating-point rounding: the rate limiter uses reals.
- std::collections::BinaryHeap: a bag from which a greatest slot is taken.
- Hash map iteration order: the sidecar's is an arbitrary parameter, and the collapser's summaries are specified up to order.
- Format detection: a vote without a crisp specification.
- CSV headers and line patterns during a scan: the code attaches none, so such projections are absent there.
- Severity breakdown of a histogram bin: only the count of each bin is modelled.
- Histogram reuse between tabs and widths: one tab's histogram is modelled, for an unchanged view and width.
- The cursor snap and the status line after a view is rebuilt.
- The endless wait of the tail reader: a finite list of turns of any length; `Read::read`, which does not track the position, and the file identity used outside Unix are not modelled.
- Races inside a rotation check: opening and polling are atomic, and reopening never fails.
- The early end of a watch when standard output is closed.
- Newest.SearchAll: does not model read errors of a source.
- Scrub cursor moves; the inclusive time filter a window is applied as is part of `FilteredView`.
- Sidecar load and save, and the wall clock: file and clock access; the clock is a parameter.
