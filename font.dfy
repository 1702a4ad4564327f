/**
 * The glyph table: a 5-column, 7-row bitmap for each of the letters the
 * contribution graph can spell (A, N, R, Y) and for the space. Row 0 is the
 * top row; in each row, character `c` is column `c`, `'1'` for a lit cell.
 */
module Font {

  const Rows := 7
  const LetterWidth := 5

  const Table: map<char, seq<string>> := map[
    'A' := [
      "01110",
      "10001",
      "10001",
      "11111",
      "10001",
      "10001",
      "10001"],
    'R' := [
      "11110",
      "10001",
      "10001",
      "11110",
      "10100",
      "10010",
      "10001"],
    'Y' := [
      "10001",
      "10001",
      "01010",
      "00100",
      "00100",
      "00100",
      "00100"],
    'N' := [
      "10001",
      "11001",
      "10101",
      "10011",
      "10001",
      "10001",
      "10001"],
    ' ' := [
      "00000",
      "00000",
      "00000",
      "00000",
      "00000",
      "00000",
      "00000"]
  ]

  /** Seven rows of five characters, each `'0'` or `'1'`. */
  predicate WellFormed(g: seq<string>) {
    |g| == Rows
    && forall r :: 0 <= r < Rows ==>
         |g[r]| == LetterWidth && forall c :: 0 <= c < LetterWidth ==> g[r][c] == '0' || g[r][c] == '1'
  }

  predicate BitRow(s: string) {
    |s| == 5
    && (s[0] == '0' || s[0] == '1') && (s[1] == '0' || s[1] == '1') && (s[2] == '0' || s[2] == '1')
    && (s[3] == '0' || s[3] == '1') && (s[4] == '0' || s[4] == '1')
  }

  lemma BitRowsWellFormed(g: seq<string>)
    requires |g| == 7
    requires BitRow(g[0]) && BitRow(g[1]) && BitRow(g[2]) && BitRow(g[3])
    requires BitRow(g[4]) && BitRow(g[5]) && BitRow(g[6])
    ensures WellFormed(g)
  {
    forall r | 0 <= r < Rows
      ensures |g[r]| == LetterWidth
      ensures forall c :: 0 <= c < LetterWidth ==> g[r][c] == '0' || g[r][c] == '1'
    {
      assert BitRow(g[r]);
    }
  }

  /** Every glyph of the table is a well-formed 5-by-7 bitmap. */
  lemma TableWellFormed(ch: char)
    requires ch in Table
    ensures WellFormed(Table[ch])
  {
    var g := Table[ch];
    assert ch == 'A' || ch == 'R' || ch == 'Y' || ch == 'N' || ch == ' ';
    BitRowsWellFormed(g);
  }

  /** The glyph drawn for `ch`; a character without one is drawn as the space. */
  function Glyph(ch: char): (g: seq<string>)
    ensures WellFormed(g)
    ensures ch in Table ==> g == Table[ch]
    ensures ch !in Table ==> g == Table[' ']
  {
    if ch in Table then TableWellFormed(ch); Table[ch]
    else TableWellFormed(' '); Table[' ']
  }

  /** Cell (`r`, `c`) of `ch`'s glyph as a bit. */
  function GlyphBit(ch: char, r: int, c: int): (b: int)
    requires 0 <= r < Rows && 0 <= c < LetterWidth
    ensures b == 0 || b == 1
    ensures ch in Table ==> (b == 1 <==> Table[ch][r][c] == '1')
    ensures ch !in Table ==> b == 0
  {
    if Glyph(ch)[r][c] == '1' then 1 else 0
  }

  /** A character that is not in the table lights no cell. */
  lemma UnknownIsBlank(ch: char, r: int, c: int)
    requires ch !in Table
    requires 0 <= r < Rows && 0 <= c < LetterWidth
    ensures GlyphBit(ch, r, c) == 0
  {
    assert Table[' '][r] == "00000";
  }
}
