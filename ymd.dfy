/**
 * The `YYYY-MM-DD` text form of a date (the calendar date in the extended
 * format of ISO 8601:2004, section 4.1.2.2), used as the key of the per-date
 * commit map: written when a date is recorded and read back when its commits
 * are made.
 */
module Ymd {
  import opened Calendar

  datatype Option<T> = None | Some(value: T)

  predicate IsDigit(ch: char) {
    '0' <= ch <= '9'
  }

  function Digit(n: int): (ch: char)
    requires 0 <= n <= 9
    ensures IsDigit(ch) && DigitValue(ch) == n
  {
    (n + '0' as int) as char
  }

  function DigitValue(ch: char): int {
    ch as int - '0' as int
  }

  /** `n` written with exactly two digits, zero-filled. */
  function Pad2(n: int): string
    requires 0 <= n <= 99
  {
    [Digit(n / 10), Digit(n % 10)]
  }

  /** `n` written with exactly four digits, zero-filled. */
  function Pad4(n: int): string
    requires 0 <= n <= 9999
  {
    [Digit(n / 1000), Digit(n / 100 % 10), Digit(n / 10 % 10), Digit(n % 10)]
  }

  function Value2(s: string): int
    requires |s| == 2
  {
    10 * DigitValue(s[0]) + DigitValue(s[1])
  }

  function Value4(s: string): int
    requires |s| == 4
  {
    1000 * DigitValue(s[0]) + 100 * DigitValue(s[1]) + 10 * DigitValue(s[2]) + DigitValue(s[3])
  }

  /** A date of a four-digit year; other years do not fit the key format. */
  predicate Formattable(d: Date) {
    ValidDate(d) && 0 <= d.year <= 9999
  }

  /** Formats a date as `YYYY-MM-DD`. */
  function Format(d: Date): (s: string)
    requires Formattable(d)
    ensures |s| == 10 && s[4] == '-' && s[7] == '-'
  {
    Pad4(d.year) + "-" + Pad2(d.month) + "-" + Pad2(d.day)
  }

  /** `s` has the shape `DDDD-DD-DD`, each D a decimal digit. */
  predicate WellShaped(s: string) {
    |s| == 10 && s[4] == '-' && s[7] == '-'
    && forall i :: 0 <= i < 10 && i != 4 && i != 7 ==> IsDigit(s[i])
  }

  /** Reads a `YYYY-MM-DD` key back into a date; text that is not one gives `None`. */
  function Parse(s: string): (r: Option<Date>)
    ensures r.Some? ==> Formattable(r.value)
  {
    if !WellShaped(s) then None
    else
      var d := Date(Value4(s[0..4]), Value2(s[5..7]), Value2(s[8..10]));
      if ValidDate(d) then Some(d) else None
  }

  lemma Value2Pad2(n: int)
    requires 0 <= n <= 99
    ensures Value2(Pad2(n)) == n
  {
  }

  lemma Value4Pad4(n: int)
    requires 0 <= n <= 9999
    ensures Value4(Pad4(n)) == n
  {
    assert n / 10 % 10 == n / 10 - 10 * (n / 100);
    assert n / 100 % 10 == n / 100 - 10 * (n / 1000);
  }

  /** Reading back what was formatted gives the same date. */
  lemma ParseFormat(d: Date)
    requires Formattable(d)
    ensures Parse(Format(d)) == Some(d)
  {
    var s := Format(d);
    var yyyy, mm, dd := Pad4(d.year), Pad2(d.month), Pad2(d.day);
    assert s == yyyy + "-" + mm + "-" + dd;
    assert s[0..4] == yyyy && s[5..7] == mm && s[8..10] == dd;
    Value4Pad4(d.year);
    Value2Pad2(d.month);
    Value2Pad2(d.day);
    forall i | 0 <= i < 10 && i != 4 && i != 7
      ensures IsDigit(s[i])
    {
      if i < 4 {
        assert s[i] == yyyy[i];
      } else if i < 7 {
        assert s[i] == mm[i - 5];
      } else {
        assert s[i] == dd[i - 8];
      }
    }
    assert WellShaped(s);
  }

  lemma Pad2Value2(s: string)
    requires |s| == 2 && IsDigit(s[0]) && IsDigit(s[1])
    ensures 0 <= Value2(s) <= 99 && Pad2(Value2(s)) == s
  {
  }

  lemma DigitsOf4(a: int, b: int, c: int, e: int)
    requires 0 <= a <= 9 && 0 <= b <= 9 && 0 <= c <= 9 && 0 <= e <= 9
    ensures var n := 1000 * a + 100 * b + 10 * c + e;
      n / 1000 == a && n / 100 % 10 == b && n / 10 % 10 == c && n % 10 == e
  {
    var n := 1000 * a + 100 * b + 10 * c + e;
    assert n / 10 == 100 * a + 10 * b + c;
    assert n / 100 == 10 * a + b;
  }

  lemma Pad4Value4(s: string)
    requires |s| == 4 && IsDigit(s[0]) && IsDigit(s[1]) && IsDigit(s[2]) && IsDigit(s[3])
    ensures 0 <= Value4(s) <= 9999 && Pad4(Value4(s)) == s
  {
    DigitsOf4(DigitValue(s[0]), DigitValue(s[1]), DigitValue(s[2]), DigitValue(s[3]));
    assert Digit(DigitValue(s[0])) == s[0];
    assert Digit(DigitValue(s[1])) == s[1];
    assert Digit(DigitValue(s[2])) == s[2];
    assert Digit(DigitValue(s[3])) == s[3];
  }

  /** Every text that reads as a date is that date's own formatted form. */
  lemma FormatParse(s: string)
    requires Parse(s).Some?
    ensures Format(Parse(s).value) == s
  {
    var d := Parse(s).value;
    assert WellShaped(s);
    assert s[0..4][0] == s[0] && s[0..4][1] == s[1] && s[0..4][2] == s[2] && s[0..4][3] == s[3];
    Pad4Value4(s[0..4]);
    assert s[5..7][0] == s[5] && s[5..7][1] == s[6];
    Pad2Value2(s[5..7]);
    assert s[8..10][0] == s[8] && s[8..10][1] == s[9];
    Pad2Value2(s[8..10]);
    assert s == s[0..4] + "-" + s[5..7] + "-" + s[8..10];
  }

  /** Formatting is one-to-one, so each date has its own key. */
  lemma FormatInjective(a: Date, b: Date)
    requires Formattable(a) && Formattable(b) && Format(a) == Format(b)
    ensures a == b
  {
    ParseFormat(a);
    ParseFormat(b);
  }
}
