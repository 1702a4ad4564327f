# goGreen text-to-schedule pipeline, modelled in Dafny

goGreen fills a Git contribution graph with back-dated commits. In text mode
it spells a word across a year of the graph:

1. It renders the text in a 5-column, 7-row bitmap font. The letters sit side
   by side with a one-column gap between them. This is the *pattern*, a grid
   of columns of seven 0/1 cells (`buildPatternFromText`).
2. It lays the pattern onto the week grid of year `y`:
   - column `c` is a week and row `r` a day of the week, from Sunday;
   - cell (0, 0) is the Sunday on or before 1 January.
3. Each lit cell that falls inside `y` adds a commit count to its day. The
   count depends on the row's shade: light at the top and bottom edges, dark
   in the middle. The counts are kept in an insertion-ordered map keyed by
   `YYYY-MM-DD` (`buildDateCommitMapFromPattern`).
4. It walks the map in insertion order. Each key is read back as a date, and
   that date's commits are made at hours spread evenly across the day
   (`commitMultipleOnDate`).

`getDatesOfYear` lists the days of the year.

The model covers all of this. Each module follows one part of the program:

- `Font` (font.dfy): the glyph table and the blank fallback for other
  characters.
- `PatternBuilder` (pattern.dfy): the pattern as a value, `Pattern(txt)`, and
  the builder that fills a two-dimensional `array2<int>` buffer in place at a
  moving cursor.
- `Calendar` (calendar.dfy): the Gregorian arithmetic on whole days, with no
  time of day, standing for what the program takes from its date library:
  - day 0 is 1 January of year 1 (a Monday);
  - the start of the week (Sunday);
  - adding days;
  - the year of a day;
  - "same or before".
- `Ymd` (ymd.dfy): the `YYYY-MM-DD` key. This is the calendar date in the
  extended format of ISO 8601:2004, section 4.1.2.2. The module has its
  formatter and the parser that reads a key back.
- `OrderedMaps` (ordered_map.dfy): a JavaScript `Map` (`new Map()`, `get`,
  `set`) as a value that keeps its keys in insertion order.
- `CalendarMapper` (calendar_mapper.dfy):
  - the anchor Sunday, the cell-to-day mapping, year clipping, shade tiers
    and the intensity lookup;
  - the cell-by-cell accumulation as a specification function (`Accumulate`);
  - the predicate `Describes`, which says what the finished map contains;
  - the imperative mapper proved against both.
- `Schedule` (schedule.dfy):
  - `getDatesOfYear` as a loop;
  - the spread-hour rule;
  - the per-day commit loop;
  - the loop over the map's entries;
  - the whole text branch, `PlanPatternCommits`. It is proved to produce
    commits in order of date and then hour, all inside the year, with exactly as many on each
    date as the pattern asks for.

The intensity list is a non-empty sequence of naturals. The program builds it
with `split(",")`, which never returns an empty list, and clamps each entry
with `Math.max(0, …)`. The hour formula `Math.floor((i * 24) / Math.max(1,
count))` divides two non-negative integers. Its floor equals Dafny's integer
division, so `SpreadHour` uses `/` directly.

The intensity lookup, `intensityList[Math.min(shadeIndex, …)] ||
intensityList[intensityList.length - 1]`, reads the entry at the tier, clamped
to the last index. Its `|| last` also fires when that entry is 0, because 0 is
falsy in JavaScript, so a 0 entry reads the last entry.
`CalendarMapper.Intensity` states both cases in its contract.

## Model

| member | source | states |
|---|---|---|
| Font.TableWellFormed | index.js:53-99 | every glyph of the table has 7 rows of exactly 5 characters, each '0' or '1' |
| Font.Glyph | index.js:111 | the glyph of a character in the table is its table entry; any other character gets the space's glyph; either way it is a well-formed 7-by-5 bitmap |
| Font.GlyphBit | index.js:111-114 | a cell's bit is 0 or 1; for a character in the table it is 1 exactly when the table glyph has '1' at that row and column; for any other character it is 0 |
| Font.UnknownIsBlank | index.js:111 | a character missing from the table lights no cell |
| PatternBuilder.PatternShape | index.js:105-108 | an n-letter text gives n*6-1 columns (none for the empty text); every column has 7 cells, each 0 or 1 |
| PatternBuilder.PatternLetterColumn | index.js:110-116 | column 6k+c (c < 5), row r of the pattern is row r, column c of letter k's glyph, and it lies inside the pattern |
| PatternBuilder.PatternGapColumn | index.js:117 | the column after each letter but the last is blank, and it lies inside the pattern |
| PatternBuilder.PatternUnknownLetter | index.js:111-114 | a letter missing from the table leaves its five columns all zero |
| PatternBuilder.LetterColumns | index.js:112-117 | letter k's five columns start at 6k, end inside the pattern and hold its glyph cell by cell |
| PatternBuilder.GapCell | index.js:117 | the gap column after a letter holds 0 in every row |
| PatternBuilder.DrawGlyph | index.js:111-116 | the five columns from the cursor on hold the character's glyph (or the space's glyph), and every other cell of the buffer is unchanged |
| PatternBuilder.BuildPattern | index.js:101-120 | returns a fresh 7-row buffer 6n-1 columns wide whose contents, column by column, are exactly `Pattern(txt)`; the cursor never writes past the last column |
| Calendar.OrdinalOf | index.js:128 | a valid date's position in its year lies within the year's length |
| Calendar.MonthWalk | index.js:128 | walking q days from the first of month m gives a valid date of year y at position DaysBeforeMonth(m)+q |
| Calendar.DateOfOrdinal | index.js:128 | day q of year y is a valid date of y whose position is q |
| Calendar.DateOfOrdinalOf | index.js:128 | a date is recovered from its position in its year (DateOfOrdinal and OrdinalOf are inverse) |
| Calendar.YearStartNext | index.js:129 | year y+1 starts exactly DaysInYear(y) days (365, or 366 in a Gregorian leap year) after year y |
| Calendar.YearStartMonotone | index.js:129 | every later year starts after the end of an earlier one |
| Calendar.StartOfWeek | index.js:123 | the start of the week containing day n is a Sunday at most 6 days before n |
| Calendar.InYearUnique | index.js:129 | a day belongs to at most one year |
| Calendar.YearExists | index.js:129 | every day belongs to some year |
| Calendar.YearOf | index.js:129 | the year of day n is the unique year containing n |
| Calendar.DayNumberYear | index.js:129 | the year of a valid date's day number is the date's own year |
| Calendar.DateInYear | index.js:128-129 | the date of day n of year y is a valid date of year y whose day number is n |
| Calendar.DayNumberInjective | index.js:128 | distinct valid dates have distinct day numbers |
| Calendar.NextDay | index.js:46 | adding one day to a valid date gives a valid date whose day number is one more |
| Calendar.SameOrBeforeIffDayNumber | index.js:46 | the field-by-field "same or before" comparison holds exactly when the day numbers are in order (both directions) |
| Ymd.Format | index.js:136 | a date of a four-digit year formats as 10 characters with '-' at positions 4 and 7 |
| Ymd.Parse | index.js:182 | text that parses gives a valid date of a four-digit year |
| Ymd.ParseFormat | index.js:182 | reading back a formatted date gives the same date |
| Ymd.FormatParse | index.js:182 | any text that parses is the formatted form of the date it parses to |
| Ymd.FormatInjective | index.js:136 | distinct dates get distinct keys |
| OrderedMaps.GetOrSet | index.js:137 | reading a key just set gives the value set, and reading any other key gives what it gave before the set |
| OrderedMaps.OrderedMap.Set | index.js:137 | `map.set`: the key maps to the new value and the other keys keep theirs; a new key is appended to the key order; an existing key keeps its place |
| OrderedMaps.Empty | index.js:124 | `new Map()` has no keys |
| CalendarMapper.FirstSunday | index.js:123 | the anchor is a Sunday on or before 1 January of y, fewer than 7 days before it |
| CalendarMapper.CellOf | index.js:128 | each day is the day of exactly one cell number 7c+r (the inverse of the cell-to-day mapping) |
| CalendarMapper.CellDaysDistinct | index.js:128 | distinct cells (c, r) of the grid fall on distinct days |
| CalendarMapper.TierIsEdgeDistance | index.js:131-134 | the shade tier is the row's distance from the nearer edge row, capped at 2, and is symmetric top to bottom |
| CalendarMapper.Intensity | index.js:135 | the count is an entry of the list: the entry at the tier clamped to the last index when that entry is non-zero, the last entry when it is 0; so it is 0 only when both are 0 |
| CalendarMapper.IntensityClamps | index.js:135 | a tier at or past the last index reads the last entry; a non-zero entry in range is read as is |
| CalendarMapper.IntensityExamples | index.js:135 | with [1,4,8], tier 5 gives 8 and tier 0 gives 1; with [1,0,8] the zero entry falls back to 8 |
| CalendarMapper.DayKeyReadsBack | index.js:136 | the key of an in-year day parses back to that day |
| CalendarMapper.Visit | index.js:126-138 | visiting one cell keeps the map well-formed (its effect is stated by VisitDescribes) |
| CalendarMapper.AddCount | index.js:137 | adds to the count under the key instead of overwriting it: the key's new value is its old value (0 if absent) plus n, every other key keeps its value, a new key is appended to the key order and an existing one keeps its place |
| CalendarMapper.AddCountTwice | index.js:137 | adding 3 and then 4 commits to the same key leaves one key holding 7 |
| CalendarMapper.Accumulate | index.js:125-139 | the map after visiting every cell before (c, r), column by column, row by row, is well-formed |
| CalendarMapper.NewCellNewKey | index.js:137 | a cell brings a key not yet in the map, so each value is the count of the single cell on that day |
| CalendarMapper.StepRecorded | index.js:128-137 | recording a lit in-year cell keeps "every key is a lit in-year cell with its tier's count" |
| CalendarMapper.StepAscending | index.js:137 | the new key is for a later day than every key already present, so the key order stays ascending |
| CalendarMapper.VisitDescribes | index.js:126-138 | visiting a cell extends a map describing the cells before it to one describing that cell too |
| CalendarMapper.AccumulateDescribes | index.js:125-139 | the accumulated map holds exactly: keys that parse back to dates of y, from lit cells, each valued at its row's intensity, in strictly ascending date order, with a key for every lit in-year cell |
| CalendarMapper.BlankPatternGivesEmptyMap | index.js:127 | a pattern with no lit cell gives the empty map |
| CalendarMapper.BuildDateCommitMap | index.js:122-141 | the nested loops return exactly `Accumulate` over all cells, so the map describes the pattern as AccumulateDescribes states |
| CalendarMapper.FirstSunday2025 | index.js:123 | the grid of 2025 starts on Sunday 29 December 2024 |
| CalendarMapper.NewYearKey2025 | index.js:136 | row 3 of column 0 in 2025 is 1 January, keyed "2025-01-01" |
| CalendarMapper.LetterAClippedIn2025 | index.js:128-129 | for "A" in 2025, the lit cells on 30 and 31 December 2024 are outside the year (dropped), while 1 January is inside |
| Schedule.YearEnds | index.js:43-44 | 1 January and 31 December are valid, and they are the first and last days of the year |
| Schedule.DatesOfYear | index.js:42-50 | returns DaysInYear(y) dates (366 in a leap year, else 365) from 1 January to 31 December, consecutive days of year y |
| Schedule.SpreadHourBounds | index.js:167 | for 0 <= i < count the hour lies in [0, 23], and commit 0 is at hour 0 |
| Schedule.SpreadHourMonotone | index.js:167 | the hour never decreases as i grows |
| Schedule.SpreadHourStrict | index.js:167 | with at most 24 commits the hours strictly increase |
| Schedule.DayCommitsHours | index.js:164-169 | a day's commits are count commits on that day, at hours in [0, 23], the first at hour 0 |
| Schedule.DayCommitsOrdered | index.js:164-169 | a day's commits are in order of hour |
| Schedule.DayCommitsDistinctHours | index.js:167 | at most 24 commits on a day have pairwise distinct hours |
| Schedule.FourCommitsHours | index.js:167 | four commits on a day are at hours 0, 6, 12 and 18 |
| Schedule.CommitMultipleOnDate | index.js:164-170 | the loop makes exactly the count commits of DayCommits, in order |
| Schedule.ExpandLength | index.js:181-185 | the entries give as many commits as their counts add up to |
| Schedule.CountOnAppend | index.js:181-185 | commits on a date add up over concatenated lists |
| Schedule.CountOnOneDay | index.js:164-169 | a list of commits all on one day has all of them on that day and none on any other |
| Schedule.ExpandCountOn | index.js:181-185 | on each date, the commits made number exactly the count under that date's key, and 0 when it has none |
| Schedule.ExpandWithin | index.js:181-185 | entries keyed by dates of y give commits in year y at hours in [0, 23] |
| Schedule.ChronologicalAppend | index.js:181-185 | time-ordered lists, the first wholly on earlier days, concatenate into a time-ordered list |
| Schedule.ExpandChronological | index.js:181-185 | entries in ascending date order give commits in order of date and then hour |
| Schedule.ExpandDaysBefore | index.js:181-185 | entries for days up to a bound give commits on valid days up to that bound |
| Schedule.PlannedMap | index.js:179-180 | the map of the text's pattern for year y describes that pattern (AccumulateDescribes) |
| Schedule.PlannedEntries | index.js:180-182 | the planned keys are distinct, each parses back to a date of y, and they are in ascending date order |
| Schedule.RecordedCount | index.js:135-137 | the count stored under a date's key is what the pattern asks for on that date |
| Schedule.KeyOfDate | index.js:136 | a date of y is in year y and its cell key is its own formatted form |
| Schedule.LitDateKeyed | index.js:127-137 | a date of y whose cell is lit has a key in the finished map |
| Schedule.WantedDateKeyed | index.js:127-137 | a date the pattern asks commits for has a key in the finished map |
| Schedule.PlannedCommitsOn | index.js:178-186 | on every valid date, the planned commits number exactly what the pattern asks for there: the lit cell's shade count for a day of y, 0 for every other date |
| Schedule.ReadablePrefix | index.js:181 | a prefix of readable entries is readable |
| Schedule.CommitEntries | index.js:181-186 | the loop over the entries makes exactly the expanded commits of the map, and the total it adds up equals their number |
| Schedule.PlanPatternCommits | index.js:178-186 | the text branch: the commits are the map's entries expanded in order; the total equals their number; they are in order of date and then hour, all in year y, at hours in [0, 23]; and each date gets exactly the commits the pattern asks for |

## Left out

- Git and file side effects are not modelled. That covers writing `data.json`, `git.add`, `git.commit`, the remote lookup and `git.push` (index.js:143-162, 210-235). They are foreign library calls and I/O. A commit is a value `Commit(date, hour)`.
- Console output is not modelled, and neither are the dry-run branch or the final messages (index.js:147-150, 174, 184, 195, 200-235). They only print, or only suppress the I/O above.
- Schedule.CommitMultipleOnDate: the minute and second drawn from `Math.random` are not modelled (index.js:167). A `Commit` carries only the date and the hour.
- The random fallback mode is not modelled (index.js:187-197), because it draws the per-day count and the time with `random.int`.
- The timestamp text `date.format()` with the host's timezone offset is not modelled (index.js:144). It depends on the host.
- CLI parsing and defaults are not modelled (index.js:11-40). That includes upper-casing the text and parsing the intensity list. The model takes the text, the year and the intensity list (non-empty, entries non-negative) as parameters.
- The async sequencing and the top-level error exit are not modelled (index.js:238-241). They are process control.
- Schedule.DatesOfYear requires a year of 1000 to 9999. Other years do not write `${y}-01-01` as an ISO 8601 date.
- CalendarMapper.BuildDateCommitMap requires a year of 1000 to 9999, for the same reason. `YYYY-MM-DD` keys also need four-digit years.
- Ymd.Parse reads only the strict `DDDD-DD-DD` shape. It does not model the lenient parsing of the date library for other text. Only keys produced by `Ymd.Format` are ever read back.
- PatternBuilder.Pattern and PatternBuilder.BuildPattern take the text as a sequence of Unicode characters. `txt.split("")` at index.js:102 splits into UTF-16 code units, so a character outside the Basic Multilingual Plane is two letters there and one in the model, and the letters after it land on different columns.
- Schedule.DatesOfYear and Schedule.CommitMultipleOnDate work on whole days with no time of day, so they assume every local midnight and every requested hour exists. The date library works on instants in the host's local time. Where daylight-saving time starts at local midnight, `m.add(1, "day")` (index.js:46) keeps the shifted 01:00 time, so `m.isSameOrBefore(end)` can be false on 31 December and the program then lists one day fewer. On that switch day `.hour(0)` (index.js:167) gives hour 1 where the model's `Commit` has hour 0.
- Schedule.PlanPatternCommits orders commits by date and then hour only. With more than 24 commits on a day several share an hour, and the random minute and second (index.js:167) can put those out of real time order.
