/**
 * The calendar mapper: lays a pattern onto the week grid of a year (column =
 * week, row = day of the week from Sunday) and turns every lit cell that falls
 * inside the year into commits on that date, as many as the row's shade asks.
 */
module CalendarMapper {
  import opened Calendar
  import opened Ymd
  import opened OrderedMaps
  import opened PatternBuilder
  import Font

  /** The year is written with four digits, so `YYYY-01-01` is an ISO 8601 date. */
  predicate FourDigitYear(y: int) {
    1000 <= y <= 9999
  }

  /** The Sunday on or before 1 January of `y`: the day of column 0, row 0. */
  function FirstSunday(y: int): (s: int)
    ensures Weekday(s) == 0 && s <= YearStart(y) < s + 7
  {
    StartOfWeek(YearStart(y))
  }

  /** The day of grid cell (`c`, `r`). */
  function CellDay(y: int, c: int, r: int): int {
    FirstSunday(y) + c * 7 + r
  }

  /** The number 7 * column + row of the grid cell of year `y` that falls on day `n`. */
  function CellOf(y: int, n: int): (o: int)
    ensures CellDay(y, o / 7, o % 7) == n
  {
    n - FirstSunday(y)
  }

  /** Distinct cells of the grid fall on distinct days. */
  lemma CellDaysDistinct(y: int, c1: int, r1: int, c2: int, r2: int)
    requires 0 <= r1 < 7 && 0 <= r2 < 7
    requires (c1, r1) != (c2, r2)
    ensures CellDay(y, c1, r1) != CellDay(y, c2, r2)
  {
  }

  function Min(a: int, b: int): int {
    if a < b then a else b
  }

  /** Shade tier of row `r`: 0 for the top and bottom rows, 1 next to them, 2 in the middle. */
  function Tier(r: int): nat {
    if r == 0 || r == 6 then 0
    else if r == 1 || r == 5 then 1
    else 2
  }

  /** The tier is the row's distance from the nearer edge, capped at 2. */
  lemma TierIsEdgeDistance(r: int)
    requires 0 <= r < 7
    ensures Tier(r) == Min(Min(r, 6 - r), 2)
    ensures Tier(r) == Tier(6 - r)
  {
  }

  /**
   * Commits for tier `t`: the entry at `t`, or at the last index when `t` is
   * past it; an entry of 0 falls back to the last entry.
   */
  function Intensity(t: nat, levels: seq<nat>): (n: nat)
    requires |levels| >= 1
    ensures n in levels
    ensures levels[Min(t, |levels| - 1)] != 0 ==> n == levels[Min(t, |levels| - 1)]
    ensures levels[Min(t, |levels| - 1)] == 0 ==> n == levels[|levels| - 1]
    ensures n == 0 <==> levels[Min(t, |levels| - 1)] == 0 && levels[|levels| - 1] == 0
  {
    var v := levels[Min(t, |levels| - 1)];
    if v != 0 then v else levels[|levels| - 1]
  }

  /** A tier past the end of the list reads its last entry; a non-zero entry in range is read as is. */
  lemma IntensityClamps(t: nat, levels: seq<nat>)
    requires |levels| >= 1
    ensures t >= |levels| - 1 ==> Intensity(t, levels) == levels[|levels| - 1]
    ensures t < |levels| && levels[t] != 0 ==> Intensity(t, levels) == levels[t]
  {
  }

  lemma IntensityExamples()
    ensures Intensity(5, [1, 4, 8]) == 8
    ensures Intensity(0, [1, 4, 8]) == 1
    ensures Intensity(1, [1, 0, 8]) == 8
    ensures Intensity(2, [3]) == 3
  {
  }

  /** Cell number `o` = 7 * column + row of the grid is lit. */
  predicate Lit(g: Grid, o: int)
    requires 0 <= o
  {
    CellLit(g, o / 7, o % 7)
  }

  /** The key under which the commits of day `n` of year `y` are recorded. */
  function DayKey(n: int, y: int): string
    requires FourDigitYear(y) && InYear(n, y)
  {
    Format(DateInYear(n, y))
  }

  /** A day's key reads back as that day. */
  lemma DayKeyReadsBack(n: int, y: int)
    requires FourDigitYear(y) && InYear(n, y)
    ensures Parse(DayKey(n, y)) == Some(DateInYear(n, y))
    ensures KeyDay(DayKey(n, y)) == n
  {
    ParseFormat(DateInYear(n, y));
  }

  /** The day a key reads back as. */
  function KeyDay(k: string): int
    requires Parse(k).Some?
  {
    DayNumber(Parse(k).value)
  }

  type CommitMap = OrderedMap<string, nat>

  /** Cell (`c`, `r`) of the grid is lit. */
  predicate CellLit(g: Grid, c: int, r: int)
    requires 0 <= c && 0 <= r
  {
    c < |g| && r < |g[c]| && g[c][r] != 0
  }

  /** Visiting cell (`c`, `r`): a lit cell inside year `y` adds its tier's commits to its day's key. */
  function Visit(m: CommitMap, g: Grid, y: int, levels: seq<nat>, c: nat, r: nat): (m': CommitMap)
    requires FourDigitYear(y) && |levels| >= 1 && m.Valid()
    ensures m'.Valid()
  {
    if CellLit(g, c, r) && InYear(CellDay(y, c, r), y) then
      AddCount(m, DayKey(CellDay(y, c, r), y), Intensity(Tier(r), levels))
    else m
  }

  /** `map.set(key, (map.get(key) || 0) + n)`: adds to the count already there rather than overwriting it. */
  function AddCount(m: CommitMap, key: string, n: nat): (m': CommitMap)
    requires m.Valid()
    ensures m'.Valid()
    ensures m'.values.Keys == m.values.Keys + {key}
    ensures key in m.values ==> m'.values[key] == m.values[key] + n
    ensures key !in m.values ==> m'.values[key] == n
    ensures forall k :: k in m.values && k != key ==> m'.values[k] == m.values[k]
    ensures key in m.values ==> m'.keys == m.keys
    ensures key !in m.values ==> m'.keys == m.keys + [key]
  {
    m.Set(key, m.GetOr(key, 0) + n)
  }

  /**
   * The map once every cell before (`c`, `r`) has been visited, column by
   * column and, within a column, row by row; (`c`, 7) is the same point as
   * (`c` + 1, 0).
   */
  function Accumulate(g: Grid, y: int, levels: seq<nat>, c: nat, r: nat): (m: CommitMap)
    requires FourDigitYear(y) && |levels| >= 1 && r <= 7
    ensures m.Valid()
    decreases c, r
  {
    if r == 0 then
      if c == 0 then Empty() else Accumulate(g, y, levels, c - 1, 7)
    else Visit(Accumulate(g, y, levels, c, r - 1), g, y, levels, c, r - 1)
  }

  /** Key `k` holding `v` records a lit in-year cell numbered below `o`, with its tier's count. */
  ghost predicate Recorded(k: string, v: nat, g: Grid, y: int, levels: seq<nat>, o: nat)
    requires |levels| >= 1
  {
    && Parse(k).Some?
    && Parse(k).value.year == y
    && 0 <= CellOf(y, KeyDay(k)) < o && Lit(g, CellOf(y, KeyDay(k)))
    && v == Intensity(Tier(CellOf(y, KeyDay(k)) % 7), levels)
  }

  /** Every key of `m` records a lit in-year cell numbered below `o`, with its tier's count. */
  ghost predicate AllRecorded(m: CommitMap, g: Grid, y: int, levels: seq<nat>, o: nat)
    requires |levels| >= 1
  {
    forall k :: k in m.values ==> Recorded(k, m.values[k], g, y, levels, o)
  }

  /** The keys of `m` read back as dates, in strictly ascending order. */
  ghost predicate Ascending(keys: seq<string>) {
    forall i, j :: 0 <= i < j < |keys| ==>
      Parse(keys[i]).Some? && Parse(keys[j]).Some? && KeyDay(keys[i]) < KeyDay(keys[j])
  }

  /** Every lit cell numbered below `o` that falls inside `y` has a key in `m`. */
  ghost predicate Complete(m: CommitMap, g: Grid, y: int, o: nat)
    requires FourDigitYear(y)
  {
    forall q :: 0 <= q < o && Lit(g, q) && InYear(FirstSunday(y) + q, y) ==>
      DayKey(FirstSunday(y) + q, y) in m.values
  }

  /**
   * `m` is exactly the commit map of the cells numbered below `o`: every key
   * is a date of `y` coming from a lit cell with its tier's count, the keys
   * are in ascending date order, and every lit cell inside the year has a key.
   */
  ghost predicate Describes(m: CommitMap, g: Grid, y: int, levels: seq<nat>, o: nat)
    requires FourDigitYear(y) && |levels| >= 1
  {
    m.Valid() && AllRecorded(m, g, y, levels, o) && Ascending(m.keys) && Complete(m, g, y, o)
  }

  lemma VisitLit(m: CommitMap, g: Grid, y: int, levels: seq<nat>, c: nat, r: nat, key: string, commits: nat)
    requires FourDigitYear(y) && |levels| >= 1 && m.Valid()
    requires CellLit(g, c, r) && InYear(CellDay(y, c, r), y)
    requires key == DayKey(CellDay(y, c, r), y) && commits == Intensity(Tier(r), levels)
    ensures Visit(m, g, y, levels, c, r) == AddCount(m, key, commits)
  {
  }

  lemma VisitUnlit(m: CommitMap, g: Grid, y: int, levels: seq<nat>, c: nat, r: nat)
    requires FourDigitYear(y) && |levels| >= 1 && m.Valid()
    requires !(CellLit(g, c, r) && InYear(CellDay(y, c, r), y))
    ensures Visit(m, g, y, levels, c, r) == m
  {
  }

  lemma AccumulateNext(g: Grid, y: int, levels: seq<nat>, c: nat, r: nat)
    requires FourDigitYear(y) && |levels| >= 1 && r < 7
    ensures Accumulate(g, y, levels, c, r + 1) == Visit(Accumulate(g, y, levels, c, r), g, y, levels, c, r)
  {
  }

  /** A key already recorded lies on a day before cell `o`'s, so cell `o` brings a new key. */
  lemma NewCellNewKey(m: CommitMap, g: Grid, y: int, levels: seq<nat>, o: nat, n: int)
    requires FourDigitYear(y) && |levels| >= 1 && n == FirstSunday(y) + o
    requires AllRecorded(m, g, y, levels, o) && InYear(n, y)
    ensures DayKey(n, y) !in m.values
  {
    DayKeyReadsBack(n, y);
  }

  lemma StepRecorded(m: CommitMap, g: Grid, y: int, levels: seq<nat>, o: nat, n: int)
    requires FourDigitYear(y) && |levels| >= 1 && m.Valid() && n == FirstSunday(y) + o
    requires AllRecorded(m, g, y, levels, o) && Lit(g, o) && InYear(n, y)
    ensures AllRecorded(m.Set(DayKey(n, y), Intensity(Tier(o % 7), levels)), g, y, levels, o + 1)
  {
    var key := DayKey(n, y);
    var m' := m.Set(key, Intensity(Tier(o % 7), levels));
    DayKeyReadsBack(n, y);
    assert CellOf(y, KeyDay(key)) == o;
    assert Recorded(key, m'.values[key], g, y, levels, o + 1);
    forall k | k in m'.values && k != key
      ensures Recorded(k, m'.values[k], g, y, levels, o + 1)
    {
      assert Recorded(k, m.values[k], g, y, levels, o);
    }
  }

  /** Appending a key for a later day than every listed one keeps the keys ascending. */
  lemma AscendingAppend(keys: seq<string>, k: string)
    requires Ascending(keys) && Parse(k).Some?
    requires forall i :: 0 <= i < |keys| ==> Parse(keys[i]).Some? && KeyDay(keys[i]) < KeyDay(k)
    ensures Ascending(keys + [k])
  {
    var keys' := keys + [k];
    forall i, j | 0 <= i < j < |keys'|
      ensures Parse(keys'[i]).Some? && Parse(keys'[j]).Some? && KeyDay(keys'[i]) < KeyDay(keys'[j])
    {
      assert keys'[i] == keys[i];
      if j < |keys| {
        assert keys'[j] == keys[j];
      }
    }
  }

  lemma StepAscending(m: CommitMap, g: Grid, y: int, levels: seq<nat>, o: nat, n: int)
    requires FourDigitYear(y) && |levels| >= 1 && m.Valid() && n == FirstSunday(y) + o
    requires AllRecorded(m, g, y, levels, o) && Ascending(m.keys) && InYear(n, y)
    ensures Ascending(m.keys + [DayKey(n, y)])
  {
    DayKeyReadsBack(n, y);
    forall i | 0 <= i < |m.keys|
      ensures Parse(m.keys[i]).Some? && KeyDay(m.keys[i]) < KeyDay(DayKey(n, y))
    {
      assert m.keys[i] in m.values;
      assert Recorded(m.keys[i], m.values[m.keys[i]], g, y, levels, o);
    }
    AscendingAppend(m.keys, DayKey(n, y));
  }

  lemma StepComplete(m: CommitMap, m': CommitMap, g: Grid, y: int, o: nat, n: int)
    requires FourDigitYear(y) && n == FirstSunday(y) + o
    requires Complete(m, g, y, o) && m.values.Keys <= m'.values.Keys
    requires Lit(g, o) && InYear(n, y) ==> DayKey(n, y) in m'.values
    ensures Complete(m', g, y, o + 1)
  {
  }

  lemma StepUnchanged(m: CommitMap, g: Grid, y: int, levels: seq<nat>, o: nat)
    requires |levels| >= 1 && AllRecorded(m, g, y, levels, o)
    ensures AllRecorded(m, g, y, levels, o + 1)
  {
    forall k | k in m.values
      ensures Recorded(k, m.values[k], g, y, levels, o + 1)
    {
      assert Recorded(k, m.values[k], g, y, levels, o);
    }
  }

  lemma CellNumber(c: nat, r: nat)
    requires r < 7
    ensures (7 * c + r) / 7 == c && (7 * c + r) % 7 == r
  {
  }

  /** Visiting cell (`c`, `r`) extends a description of the cells before it by that cell. */
  lemma VisitDescribes(m: CommitMap, g: Grid, y: int, levels: seq<nat>, c: nat, r: nat)
    requires FourDigitYear(y) && |levels| >= 1 && r < 7
    requires Describes(m, g, y, levels, 7 * c + r)
    ensures Describes(Visit(m, g, y, levels, c, r), g, y, levels, 7 * c + r + 1)
  {
    var o := 7 * c + r;
    var n := CellDay(y, c, r);
    assert n == FirstSunday(y) + o;
    CellNumber(c, r);
    assert Lit(g, o) == CellLit(g, c, r);
    var m' := Visit(m, g, y, levels, c, r);
    if CellLit(g, c, r) && InYear(n, y) {
      NewCellNewKey(m, g, y, levels, o, n);
      assert m' == m.Set(DayKey(n, y), Intensity(Tier(o % 7), levels));
      StepRecorded(m, g, y, levels, o, n);
      StepAscending(m, g, y, levels, o, n);
    } else {
      StepUnchanged(m, g, y, levels, o);
    }
    StepComplete(m, m', g, y, o, n);
  }

  lemma {:induction false} AccumulateDescribes(g: Grid, y: int, levels: seq<nat>, c: nat, r: nat)
    requires FourDigitYear(y) && |levels| >= 1 && r <= 7
    ensures Describes(Accumulate(g, y, levels, c, r), g, y, levels, 7 * c + r)
    decreases c, r
  {
    if r == 0 {
      if c > 0 {
        AccumulateDescribes(g, y, levels, c - 1, 7);
      }
    } else {
      AccumulateDescribes(g, y, levels, c, r - 1);
      VisitDescribes(Accumulate(g, y, levels, c, r - 1), g, y, levels, c, r - 1);
    }
  }

  /** A pattern with no lit cell gives an empty map. */
  lemma {:induction false} BlankPatternGivesEmptyMap(g: Grid, y: int, levels: seq<nat>, c: nat, r: nat)
    requires FourDigitYear(y) && |levels| >= 1 && r <= 7
    requires forall c', r' :: 0 <= c' < |g| && 0 <= r' < |g[c']| ==> g[c'][r'] == 0
    ensures Accumulate(g, y, levels, c, r) == Empty()
    decreases c, r
  {
    if r == 0 {
      if c > 0 {
        BlankPatternGivesEmptyMap(g, y, levels, c - 1, 7);
      }
    } else {
      BlankPatternGivesEmptyMap(g, y, levels, c, r - 1);
    }
  }

  /**
   * `buildDateCommitMapFromPattern`: visits the cells column by column and
   * records the commits of every lit cell that falls inside year `y`.
   */
  method BuildDateCommitMap(pattern: array2<int>, y: int, levels: seq<nat>) returns (m: CommitMap)
    requires FourDigitYear(y) && |levels| >= 1
    ensures m == Accumulate(Columns(pattern), y, levels, pattern.Length0, 0)
    ensures Describes(m, Columns(pattern), y, levels, 7 * pattern.Length0)
  {
    ghost var g := Columns(pattern);
    var firstSunday := FirstSunday(y);
    m := Empty();
    var c := 0;
    while c < pattern.Length0
      invariant 0 <= c <= pattern.Length0
      invariant m == Accumulate(g, y, levels, c, 0)
    {
      var r := 0;
      while r < 7
        invariant 0 <= r <= 7
        invariant m == Accumulate(g, y, levels, c, r)
      {
        AccumulateNext(g, y, levels, c, r);
        assert CellLit(g, c, r) <==> r < pattern.Length1 && pattern[c, r] != 0;
        if r < pattern.Length1 && pattern[c, r] != 0 {
          var date := firstSunday + c * 7 + r;
          assert date == CellDay(y, c, r);
          if InYear(date, y) {
            var shade := Tier(r);
            var commits := Intensity(shade, levels);
            var key := DayKey(date, y);
            VisitLit(m, g, y, levels, c, r, key, commits);
            m := AddCount(m, key, commits);
          } else {
            VisitUnlit(m, g, y, levels, c, r);
          }
        } else {
          VisitUnlit(m, g, y, levels, c, r);
        }
        r := r + 1;
      }
      c := c + 1;
    }
    AccumulateDescribes(g, y, levels, pattern.Length0, 0);
  }

  /** Two additions to the same key sum: 3 commits then 4 more on one day give 7. */
  lemma AddCountTwice(key: string)
    ensures key in AddCount(AddCount(Empty(), key, 3), key, 4).values
    ensures AddCount(AddCount(Empty(), key, 3), key, 4).values[key] == 7
    ensures AddCount(AddCount(Empty(), key, 3), key, 4).keys == [key]
  {
  }

  lemma YearStart2025()
    ensures YearStart(2025) == 739251 && Weekday(739251) == 3
  {
  }

  /** 2025 starts on a Wednesday, so its grid starts on Sunday 29 December 2024. */
  lemma FirstSunday2025()
    ensures FirstSunday(2025) == DayNumber(Date(2024, 12, 29))
  {
    YearStart2025();
    assert YearStart(2024) == 738885;
    assert OrdinalOf(Date(2024, 12, 29)) == 363;
  }

  lemma NewYearFormat2025()
    ensures Format(Date(2025, 1, 1)) == "2025-01-01"
  {
    assert Pad4(2025) == "2025" by {
      assert Digit(2) == '2' && Digit(0) == '0' && Digit(5) == '5';
    }
    assert Pad2(1) == "01";
  }

  /** Row 3 of column 0 in 2025 is 1 January, keyed "2025-01-01". */
  lemma NewYearKey2025()
    ensures InYear(FirstSunday(2025) + 3, 2025)
    ensures DayKey(FirstSunday(2025) + 3, 2025) == "2025-01-01"
  {
    YearStart2025();
    assert FirstSunday(2025) + 3 == 739251;
    assert DateInYear(739251, 2025) == Date(2025, 1, 1) by {
      assert DateOfOrdinal(2025, 0) == MonthWalk(2025, 1, 0);
      assert MonthWalk(2025, 1, 0) == Date(2025, 1, 1);
    }
    NewYearFormat2025();
  }

  /**
   * In "A" for 2025, the lit cells of rows 1 and 2 of the first column fall on
   * 30 and 31 December 2024 and are dropped, not wrapped into 2025.
   */
  lemma LetterAClippedIn2025()
    ensures Lit(Pattern("A"), 1) && Lit(Pattern("A"), 2)
    ensures !InYear(FirstSunday(2025) + 1, 2025) && !InYear(FirstSunday(2025) + 2, 2025)
    ensures Lit(Pattern("A"), 3) && InYear(FirstSunday(2025) + 3, 2025)
  {
    YearStart2025();
    assert Pattern("A")[0][1] == Font.GlyphBit('A', 1, 0);
    assert Pattern("A")[0][2] == Font.GlyphBit('A', 2, 0);
    assert Pattern("A")[0][3] == Font.GlyphBit('A', 3, 0);
  }
}
