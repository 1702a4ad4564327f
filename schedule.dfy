/**
 * The commit schedule: the days of a year, the hours at which the commits of
 * one day are spread, and the text-driven plan that turns a text into a
 * chronological list of commits, date by date in the order of the commit map.
 */
module Schedule {
  import opened Calendar
  import opened Ymd
  import opened OrderedMaps
  import opened PatternBuilder
  import opened CalendarMapper

  /** The first and last days of year `y` are its first and last day numbers. */
  lemma YearEnds(y: int)
    ensures ValidDate(Date(y, 1, 1)) && DayNumber(Date(y, 1, 1)) == YearStart(y)
    ensures ValidDate(Date(y, 12, 31)) && DayNumber(Date(y, 12, 31)) == YearStart(y) + DaysInYear(y) - 1
  {
    DaysBeforeMonthStep(y, 12);
  }

  /** A date whose day number falls in year `y` is a date of year `y`. */
  lemma YearOfDate(d: Date, y: int)
    requires ValidDate(d) && InYear(DayNumber(d), y)
    ensures d.year == y
  {
    DayNumberYear(d);
    InYearUnique(DayNumber(d), d.year, y);
  }

  /**
   * `getDatesOfYear`: every day from 1 January to 31 December of `y`, one
   * after the other, stepping a day at a time while the day is not after
   * 31 December.
   */
  method DatesOfYear(y: int) returns (dates: seq<Date>)
    requires FourDigitYear(y)
    ensures |dates| == DaysInYear(y)
    ensures forall i :: 0 <= i < |dates| ==>
              ValidDate(dates[i]) && dates[i].year == y && DayNumber(dates[i]) == YearStart(y) + i
    ensures dates[0] == Date(y, 1, 1) && dates[|dates| - 1] == Date(y, 12, 31)
  {
    var start := Date(y, 1, 1);
    var end := Date(y, 12, 31);
    YearEnds(y);
    dates := [];
    var m := start;
    SameOrBeforeIffDayNumber(m, end);
    while SameOrBefore(m, end)
      invariant ValidDate(m) && DayNumber(m) == YearStart(y) + |dates|
      invariant |dates| <= DaysInYear(y)
      invariant SameOrBefore(m, end) <==> |dates| < DaysInYear(y)
      invariant |dates| > 0 ==> dates[0] == start
      invariant forall i :: 0 <= i < |dates| ==>
                  ValidDate(dates[i]) && dates[i].year == y && DayNumber(dates[i]) == YearStart(y) + i
      decreases DaysInYear(y) - |dates|
    {
      YearOfDate(m, y);
      dates := dates + [m];
      m := NextDay(m);
      SameOrBeforeIffDayNumber(m, end);
    }
    DayNumberInjective(dates[|dates| - 1], end);
  }

  /** Hour of commit `i` of `count` on one day: the day cut into `count` equal slots. */
  function SpreadHour(i: int, count: int): int {
    (i * 24) / (if count < 1 then 1 else count)
  }

  lemma MulMonotone(d: int, x: int, y: int)
    requires 0 < d && x <= y
    ensures d * x <= d * y
  {
  }

  lemma DivMonotone(a: int, b: int, d: int)
    requires 0 <= a <= b && 0 < d
    ensures a / d <= b / d
  {
    if a / d > b / d {
      MulMonotone(d, b / d + 1, a / d);
      assert false;
    }
  }

  /** The `count` hours start at midnight, never decrease and stay within the day. */
  lemma SpreadHourBounds(i: int, count: int)
    requires 0 <= i < count
    ensures 0 <= SpreadHour(i, count) <= 23
    ensures i == 0 ==> SpreadHour(i, count) == 0
  {
  }

  lemma SpreadHourMonotone(i: int, j: int, count: int)
    requires 0 <= i <= j
    ensures SpreadHour(i, count) <= SpreadHour(j, count)
  {
    DivMonotone(i * 24, j * 24, if count < 1 then 1 else count);
  }

  /** With at most 24 commits a day, no two commits share an hour. */
  lemma SpreadHourStrict(i: int, j: int, count: int)
    requires 0 <= i < j && 1 <= count <= 24
    ensures SpreadHour(i, count) < SpreadHour(j, count)
  {
    assert (i * 24 + count) / count == i * 24 / count + 1;
    DivMonotone(i * 24 + count, j * 24, count);
  }

  /** A commit of the schedule: its date and the hour of the day it is stamped with. */
  datatype Commit = Commit(date: Date, hour: int)

  /** The commits of one day: `count` of them, at the spread hours. */
  function DayCommits(day: Date, count: nat): seq<Commit> {
    seq(count, i requires 0 <= i < count => Commit(day, SpreadHour(i, count)))
  }

  /** `a` is not later than `b`: an earlier day, or the same day at the same hour or earlier. */
  predicate NotAfter(a: Commit, b: Commit)
    requires ValidDate(a.date) && ValidDate(b.date)
  {
    DayNumber(a.date) < DayNumber(b.date) || (a.date == b.date && a.hour <= b.hour)
  }

  /**
   * The commits are listed in order of date and then hour. Minutes and seconds
   * are not modelled, so commits sharing a date and an hour are not ordered further.
   */
  predicate Chronological(cs: seq<Commit>) {
    forall i, j :: 0 <= i < j < |cs| ==>
      ValidDate(cs[i].date) && ValidDate(cs[j].date) && NotAfter(cs[i], cs[j])
  }

  /** The commits of one day are `count` commits on that day, at hours of the day starting at midnight. */
  lemma DayCommitsHours(day: Date, count: nat)
    ensures |DayCommits(day, count)| == count
    ensures forall i :: 0 <= i < count ==>
              DayCommits(day, count)[i].date == day && 0 <= DayCommits(day, count)[i].hour <= 23
    ensures count > 0 ==> DayCommits(day, count)[0].hour == 0
  {
    forall i | 0 <= i < count
      ensures 0 <= DayCommits(day, count)[i].hour <= 23
    {
      SpreadHourBounds(i, count);
    }
  }

  /** The commits of one day are in order of hour. */
  lemma DayCommitsOrdered(day: Date, count: nat)
    requires ValidDate(day)
    ensures Chronological(DayCommits(day, count))
  {
    var cs := DayCommits(day, count);
    forall i, j | 0 <= i < j < count
      ensures cs[i].hour <= cs[j].hour
    {
      SpreadHourMonotone(i, j, count);
    }
  }

  /** At most 24 commits on a day are at distinct hours. */
  lemma DayCommitsDistinctHours(day: Date, count: nat)
    requires count <= 24
    ensures forall i, j :: 0 <= i < j < count ==>
              DayCommits(day, count)[i].hour < DayCommits(day, count)[j].hour
  {
    forall i, j | 0 <= i < j < count
      ensures DayCommits(day, count)[i].hour < DayCommits(day, count)[j].hour
    {
      SpreadHourStrict(i, j, count);
    }
  }

  /** Four commits on a day are stamped at 00, 06, 12 and 18 o'clock. */
  lemma FourCommitsHours(day: Date)
    ensures |DayCommits(day, 4)| == 4
    ensures DayCommits(day, 4)[0].hour == 0 && DayCommits(day, 4)[1].hour == 6
    ensures DayCommits(day, 4)[2].hour == 12 && DayCommits(day, 4)[3].hour == 18
  {
  }

  /** `commitMultipleOnDate`: makes `count` commits on `day`, the `i`-th at its spread hour. */
  method CommitMultipleOnDate(day: Date, count: nat) returns (commits: seq<Commit>)
    ensures commits == DayCommits(day, count)
  {
    commits := [];
    var i := 0;
    while i < count
      invariant 0 <= i <= count
      invariant commits == DayCommits(day, count)[..i]
    {
      var ts := Commit(day, SpreadHour(i, count));
      commits := commits + [ts];
      i := i + 1;
    }
  }

  /** Every listed key has a count and reads back as a date. */
  predicate Readable(keys: seq<string>, counts: map<string, nat>) {
    forall i :: 0 <= i < |keys| ==> keys[i] in counts && Parse(keys[i]).Some?
  }

  /** The commits of the entries `keys`, in the order listed: each date's commits in turn. */
  function Expand(keys: seq<string>, counts: map<string, nat>): seq<Commit>
    requires Readable(keys, counts)
  {
    if |keys| == 0 then []
    else
      var last := keys[|keys| - 1];
      Expand(keys[..|keys| - 1], counts) + DayCommits(Parse(last).value, counts[last])
  }

  /** The sum of the counts of the entries `keys`. */
  function TotalCount(keys: seq<string>, counts: map<string, nat>): nat
    requires Readable(keys, counts)
  {
    if |keys| == 0 then 0
    else TotalCount(keys[..|keys| - 1], counts) + counts[keys[|keys| - 1]]
  }

  /** As many commits are made as the counts add up to. */
  lemma {:induction false} ExpandLength(keys: seq<string>, counts: map<string, nat>)
    requires Readable(keys, counts)
    ensures |Expand(keys, counts)| == TotalCount(keys, counts)
  {
    if |keys| > 0 {
      ExpandLength(keys[..|keys| - 1], counts);
    }
  }

  /** Number of commits of `cs` on date `d`. */
  function CountOn(cs: seq<Commit>, d: Date): nat {
    if |cs| == 0 then 0
    else CountOn(cs[..|cs| - 1], d) + (if cs[|cs| - 1].date == d then 1 else 0)
  }

  lemma {:induction false} CountOnAppend(a: seq<Commit>, b: seq<Commit>, d: Date)
    ensures CountOn(a + b, d) == CountOn(a, d) + CountOn(b, d)
    decreases |b|
  {
    if |b| == 0 {
      assert a + b == a;
    } else {
      assert (a + b)[..|a + b| - 1] == a + b[..|b| - 1];
      CountOnAppend(a, b[..|b| - 1], d);
    }
  }

  lemma {:induction false} CountOnOneDay(cs: seq<Commit>, e: Date, d: Date)
    requires forall i :: 0 <= i < |cs| ==> cs[i].date == e
    ensures CountOn(cs, d) == if e == d then |cs| else 0
  {
    if |cs| > 0 {
      CountOnOneDay(cs[..|cs| - 1], e, d);
    }
  }

  /** Distinct keys. */
  predicate Distinct(keys: seq<string>) {
    forall i, j :: 0 <= i < j < |keys| ==> keys[i] != keys[j]
  }

  /**
   * On each date, the expanded commits number exactly the count recorded
   * under that date's key, and none when the date has no key.
   */
  lemma {:induction false} ExpandCountOn(keys: seq<string>, counts: map<string, nat>, d: Date)
    requires Readable(keys, counts) && Distinct(keys)
    ensures CountOn(Expand(keys, counts), d) ==
              if Formattable(d) && Format(d) in keys then counts[Format(d)] else 0
  {
    if |keys| > 0 {
      var init, last := keys[..|keys| - 1], keys[|keys| - 1];
      var e := Parse(last).value;
      ExpandCountOn(init, counts, d);
      CountOnAppend(Expand(init, counts), DayCommits(e, counts[last]), d);
      CountOnOneDay(DayCommits(e, counts[last]), e, d);
      FormatParse(last);
      if Formattable(d) {
        ParseFormat(d);
        if Format(d) == last {
          assert Format(d) !in init;
        } else if Format(d) in keys {
          var t :| 0 <= t < |keys| && keys[t] == Format(d);
          assert Format(d) in init by {
            assert t < |keys| - 1 && init[t] == keys[t];
          }
        }
      }
    }
  }

  /** Every expanded commit lies in year `y`, at an hour of the day. */
  lemma {:induction false} ExpandWithin(keys: seq<string>, counts: map<string, nat>, y: int)
    requires Readable(keys, counts)
    requires forall i :: 0 <= i < |keys| ==> Parse(keys[i]).value.year == y
    ensures forall i :: 0 <= i < |Expand(keys, counts)| ==>
              Expand(keys, counts)[i].date.year == y && 0 <= Expand(keys, counts)[i].hour <= 23
  {
    if |keys| > 0 {
      var init, last := keys[..|keys| - 1], keys[|keys| - 1];
      var e := Parse(last).value;
      ExpandWithin(init, counts, y);
      DayCommitsHours(e, counts[last]);
      var a: seq<Commit>, b: seq<Commit> := Expand(init, counts), DayCommits(e, counts[last]);
      forall i | 0 <= i < |a + b|
        ensures (a + b)[i].date.year == y && 0 <= (a + b)[i].hour <= 23
      {
        if i >= |a| {
          assert (a + b)[i] == b[i - |a|];
        }
      }
    }
  }

  /** Two lists in date-and-hour order, the first wholly on earlier days, make one such list. */
  lemma ChronologicalAppend(a: seq<Commit>, b: seq<Commit>, bound: int)
    requires Chronological(a) && Chronological(b)
    requires forall i :: 0 <= i < |a| ==> ValidDate(a[i].date) && DayNumber(a[i].date) <= bound
    requires forall j :: 0 <= j < |b| ==> ValidDate(b[j].date) && bound < DayNumber(b[j].date)
    ensures Chronological(a + b)
  {
    var ab := a + b;
    forall i, j | 0 <= i < j < |ab|
      ensures ValidDate(ab[i].date) && ValidDate(ab[j].date) && NotAfter(ab[i], ab[j])
    {
      if j < |a| {
        assert ab[i] == a[i] && ab[j] == a[j];
      } else if i < |a| {
        assert ab[i] == a[i] && ab[j] == b[j - |a|];
      } else {
        assert ab[i] == b[i - |a|] && ab[j] == b[j - |a|];
      }
    }
  }

  /** Entries listed in ascending date order expand into commits in order of date and then hour. */
  lemma {:induction false} ExpandChronological(keys: seq<string>, counts: map<string, nat>)
    requires Readable(keys, counts) && Ascending(keys)
    ensures Chronological(Expand(keys, counts))
  {
    if |keys| > 0 {
      var init, last := keys[..|keys| - 1], keys[|keys| - 1];
      var e := Parse(last).value;
      assert Ascending(init) by {
        forall i, j | 0 <= i < j < |init|
          ensures Parse(init[i]).Some? && Parse(init[j]).Some? && KeyDay(init[i]) < KeyDay(init[j])
        {
          assert init[i] == keys[i] && init[j] == keys[j];
        }
      }
      ExpandChronological(init, counts);
      forall i | 0 <= i < |init|
        ensures KeyDay(init[i]) <= KeyDay(last) - 1
      {
        assert init[i] == keys[i];
      }
      ExpandDaysBefore(init, counts, KeyDay(last) - 1);
      DayCommitsHours(e, counts[last]);
      DayCommitsOrdered(e, counts[last]);
      ChronologicalAppend(Expand(init, counts), DayCommits(e, counts[last]), KeyDay(last) - 1);
    }
  }

  /** Every expanded commit is on a valid day no later than `bound`. */
  lemma {:induction false} ExpandDaysBefore(keys: seq<string>, counts: map<string, nat>, bound: int)
    requires Readable(keys, counts)
    requires forall i :: 0 <= i < |keys| ==> KeyDay(keys[i]) <= bound
    ensures forall i :: 0 <= i < |Expand(keys, counts)| ==>
              ValidDate(Expand(keys, counts)[i].date) && DayNumber(Expand(keys, counts)[i].date) <= bound
  {
    if |keys| > 0 {
      var init, last := keys[..|keys| - 1], keys[|keys| - 1];
      var e := Parse(last).value;
      ExpandDaysBefore(init, counts, bound);
      DayCommitsHours(e, counts[last]);
      var a: seq<Commit>, b: seq<Commit> := Expand(init, counts), DayCommits(e, counts[last]);
      forall i | 0 <= i < |a + b|
        ensures ValidDate((a + b)[i].date) && DayNumber((a + b)[i].date) <= bound
      {
        if i >= |a| {
          assert (a + b)[i] == b[i - |a|];
        }
      }
    }
  }

  /** The commit map the pattern of `txt` gives for year `y`. */
  function PlannedMap(txt: string, y: int, levels: seq<nat>): (m: CommitMap)
    requires FourDigitYear(y) && |levels| >= 1
    ensures Describes(m, Pattern(txt), y, levels, 7 * Width(|txt|))
  {
    AccumulateDescribes(Pattern(txt), y, levels, Width(|txt|), 0);
    Accumulate(Pattern(txt), y, levels, Width(|txt|), 0)
  }

  /** The entries of the planned map are distinct keys of dates of year `y`, in ascending order. */
  lemma PlannedEntries(txt: string, y: int, levels: seq<nat>)
    requires FourDigitYear(y) && |levels| >= 1
    ensures var m := PlannedMap(txt, y, levels);
      Readable(m.keys, m.values) && Distinct(m.keys) && Ascending(m.keys)
      && forall i :: 0 <= i < |m.keys| ==> Parse(m.keys[i]).value.year == y
  {
    var m := PlannedMap(txt, y, levels);
    forall i | 0 <= i < |m.keys|
      ensures m.keys[i] in m.values && Parse(m.keys[i]).Some? && Parse(m.keys[i]).value.year == y
    {
      assert m.keys[i] in m.values;
      assert Recorded(m.keys[i], m.values[m.keys[i]], Pattern(txt), y, levels, 7 * Width(|txt|));
    }
  }

  /**
   * Commits the grid `g` asks for on date `d`: the shade count of the cell of
   * year `y` that falls on `d`, when that cell is lit, and none for every
   * other date.
   */
  function WantedOn(g: Grid, y: int, levels: seq<nat>, d: Date): nat
    requires FourDigitYear(y) && |levels| >= 1 && ValidDate(d)
  {
    if d.year == y && 0 <= CellOf(y, DayNumber(d)) && Lit(g, CellOf(y, DayNumber(d)))
    then Intensity(Tier(CellOf(y, DayNumber(d)) % 7), levels)
    else 0
  }

  /** A count recorded under the key of date `d` is what grid `g` asks for on `d`. */
  lemma RecordedCount(v: nat, g: Grid, y: int, levels: seq<nat>, d: Date)
    requires FourDigitYear(y) && |levels| >= 1 && Formattable(d)
    requires Recorded(Format(d), v, g, y, levels, 7 * |g|)
    ensures v == WantedOn(g, y, levels, d)
  {
    ParseFormat(d);
  }

  /** The key of a date of year `y` is the date's own formatted form. */
  lemma KeyOfDate(d: Date, y: int)
    requires FourDigitYear(y) && ValidDate(d) && d.year == y
    ensures InYear(DayNumber(d), y) && Formattable(d) && DayKey(DayNumber(d), y) == Format(d)
  {
    DayNumberYear(d);
    DayNumberInjective(DateInYear(DayNumber(d), y), d);
  }

  /** A date of year `y` whose cell of grid `g` is lit has a key in a complete map of `g`. */
  lemma LitDateKeyed(m: CommitMap, g: Grid, y: int, d: Date)
    requires FourDigitYear(y) && ValidDate(d) && d.year == y
    requires Complete(m, g, y, 7 * |g|)
    requires 0 <= CellOf(y, DayNumber(d)) && Lit(g, CellOf(y, DayNumber(d)))
    ensures Formattable(d) && Format(d) in m.values
  {
    var n := DayNumber(d);
    var q := CellOf(y, n);
    KeyOfDate(d, y);
    assert FirstSunday(y) + q == n;
  }

  /** A date grid `g` asks commits for has a key in a complete map of `g`. */
  lemma WantedDateKeyed(m: CommitMap, g: Grid, y: int, levels: seq<nat>, d: Date)
    requires FourDigitYear(y) && |levels| >= 1 && ValidDate(d)
    requires Complete(m, g, y, 7 * |g|)
    ensures WantedOn(g, y, levels, d) != 0 ==> Formattable(d) && Format(d) in m.values
  {
    if d.year == y && 0 <= CellOf(y, DayNumber(d)) && Lit(g, CellOf(y, DayNumber(d))) {
      LitDateKeyed(m, g, y, d);
    }
  }

  /** The planned commits on each date are exactly those the pattern asks for there. */
  lemma PlannedCommitsOn(txt: string, y: int, levels: seq<nat>, d: Date)
    requires FourDigitYear(y) && |levels| >= 1 && ValidDate(d)
    ensures var m := PlannedMap(txt, y, levels);
      Readable(m.keys, m.values) && CountOn(Expand(m.keys, m.values), d) == WantedOn(Pattern(txt), y, levels, d)
  {
    var m := PlannedMap(txt, y, levels);
    PlannedEntries(txt, y, levels);
    ExpandCountOn(m.keys, m.values, d);
    if Formattable(d) && Format(d) in m.values {
      RecordedCount(m.values[Format(d)], Pattern(txt), y, levels, d);
    } else {
      WantedDateKeyed(m, Pattern(txt), y, levels, d);
    }
  }

  /** Prefixes of readable entries are readable. */
  lemma ReadablePrefix(keys: seq<string>, counts: map<string, nat>, i: nat)
    requires Readable(keys, counts) && i <= |keys|
    ensures Readable(keys[..i], counts)
  {
    forall j | 0 <= j < i
      ensures keys[..i][j] in counts && Parse(keys[..i][j]).Some?
    {
      assert keys[..i][j] == keys[j];
    }
  }

  /**
   * The loop over the entries of the commit map: reads each key back as a
   * date and makes that date's commits, adding up the counts.
   */
  method CommitEntries(dateMap: CommitMap) returns (commits: seq<Commit>, total: nat)
    requires Readable(dateMap.keys, dateMap.values)
    ensures commits == Expand(dateMap.keys, dateMap.values)
    ensures total == TotalCount(dateMap.keys, dateMap.values) == |commits|
  {
    commits, total := [], 0;
    var i := 0;
    while i < |dateMap.keys|
      invariant 0 <= i <= |dateMap.keys| && Readable(dateMap.keys[..i], dateMap.values)
      invariant commits == Expand(dateMap.keys[..i], dateMap.values)
      invariant total == TotalCount(dateMap.keys[..i], dateMap.values)
    {
      var ymd := dateMap.keys[i];
      var cnt := dateMap.values[ymd];
      var dayMoment := Parse(ymd).value;
      total := total + cnt;
      var dayCommits := CommitMultipleOnDate(dayMoment, cnt);
      commits := commits + dayCommits;
      assert dateMap.keys[..i + 1][..i] == dateMap.keys[..i];
      ReadablePrefix(dateMap.keys, dateMap.values, i + 1);
      i := i + 1;
    }
    assert dateMap.keys[..i] == dateMap.keys;
    ExpandLength(dateMap.keys, dateMap.values);
  }

  /**
   * The text branch of `makeCommitsForYear`: builds the pattern of `txt`, maps
   * it onto year `y` and makes the commits of the map's entries in order.
   */
  method PlanPatternCommits(txt: string, y: int, levels: seq<nat>) returns (commits: seq<Commit>, total: nat)
    requires FourDigitYear(y) && |levels| >= 1
    ensures Readable(PlannedMap(txt, y, levels).keys, PlannedMap(txt, y, levels).values)
    ensures commits == Expand(PlannedMap(txt, y, levels).keys, PlannedMap(txt, y, levels).values)
    ensures total == |commits|
    ensures Chronological(commits)
    ensures forall i :: 0 <= i < |commits| ==> commits[i].date.year == y && 0 <= commits[i].hour <= 23
    ensures forall d :: ValidDate(d) ==> CountOn(commits, d) == WantedOn(Pattern(txt), y, levels, d)
  {
    var pattern := BuildPattern(txt);
    var dateMap := BuildDateCommitMap(pattern, y, levels);
    assert dateMap == PlannedMap(txt, y, levels);
    PlannedEntries(txt, y, levels);
    commits, total := CommitEntries(dateMap);
    ExpandChronological(dateMap.keys, dateMap.values);
    ExpandWithin(dateMap.keys, dateMap.values, y);
    forall d | ValidDate(d)
      ensures CountOn(commits, d) == WantedOn(Pattern(txt), y, levels, d)
    {
      PlannedCommitsOn(txt, y, levels, d);
    }
  }
}
