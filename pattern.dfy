/**
 * The pattern builder: lays the glyphs of a text side by side, with one blank
 * column between neighbours, into a grid of columns of seven cells.
 */
module PatternBuilder {
  import opened Font

  /** Blank columns between two neighbouring letters. */
  const Gap := 1

  /** A pattern as a value: a sequence of columns, each a sequence of cells. */
  type Grid = seq<seq<int>>

  /**
   * Number of columns for `n` letters: n * (5 + 1) - 1, and 0 for the empty
   * text (an array asked for length -1 is created empty).
   */
  function Width(n: nat): nat {
    var cols := n * (LetterWidth + Gap) - Gap;
    if cols < 0 then 0 else cols
  }

  /** What the finished pattern holds at column `c`, row `r`. */
  function PatternCell(txt: string, c: int, r: int): int
    requires 0 <= c < Width(|txt|) && 0 <= r < Rows
  {
    var k := c / (LetterWidth + Gap);
    var x := c % (LetterWidth + Gap);
    if x < LetterWidth then GlyphBit(txt[k], r, x) else 0
  }

  /** The pattern of `txt` as a value. */
  function Pattern(txt: string): Grid {
    seq(Width(|txt|), c requires 0 <= c < Width(|txt|) =>
      seq(Rows, r requires 0 <= r < Rows => PatternCell(txt, c, r)))
  }

  /** The contents of a pattern buffer, column by column. */
  ghost function Columns(p: array2<int>): Grid
    reads p
  {
    seq(p.Length0, c requires 0 <= c < p.Length0 reads p =>
      seq(p.Length1, r requires 0 <= r < p.Length1 reads p => p[c, r]))
  }

  /** An n-letter text gives n * 6 - 1 columns of 7 cells, every cell 0 or 1. */
  lemma PatternShape(txt: string)
    ensures |Pattern(txt)| == if |txt| == 0 then 0 else |txt| * (LetterWidth + Gap) - Gap
    ensures forall c :: 0 <= c < |Pattern(txt)| ==> |Pattern(txt)[c]| == Rows
    ensures forall c, r :: 0 <= c < |Pattern(txt)| && 0 <= r < Rows ==>
              Pattern(txt)[c][r] == 0 || Pattern(txt)[c][r] == 1
  {
  }

  /** Column 6k + c of the pattern is column c of letter k's glyph. */
  lemma PatternLetterColumn(txt: string, k: int, c: int, r: int)
    requires 0 <= k < |txt| && 0 <= c < LetterWidth && 0 <= r < Rows
    ensures k * (LetterWidth + Gap) + c < |Pattern(txt)|
    ensures Pattern(txt)[k * (LetterWidth + Gap) + c][r] == GlyphBit(txt[k], r, c)
  {
    var x := k * (LetterWidth + Gap) + c;
    assert x / (LetterWidth + Gap) == k && x % (LetterWidth + Gap) == c;
  }

  /** The gap column after each letter but the last is blank. */
  lemma PatternGapColumn(txt: string, k: int, r: int)
    requires 0 <= k < |txt| - 1 && 0 <= r < Rows
    ensures k * (LetterWidth + Gap) + LetterWidth < |Pattern(txt)|
    ensures Pattern(txt)[k * (LetterWidth + Gap) + LetterWidth][r] == 0
  {
    var x := k * (LetterWidth + Gap) + LetterWidth;
    assert x % (LetterWidth + Gap) == LetterWidth;
  }

  /** A letter the table does not have leaves its five columns blank. */
  lemma PatternUnknownLetter(txt: string, k: int, c: int, r: int)
    requires 0 <= k < |txt| && txt[k] !in Table
    requires 0 <= c < LetterWidth && 0 <= r < Rows
    ensures Pattern(txt)[k * (LetterWidth + Gap) + c][r] == 0
  {
    PatternLetterColumn(txt, k, c, r);
    UnknownIsBlank(txt[k], r, c);
  }

  /** The five columns of letter `k`, from `b` on, hold its glyph. */
  lemma LetterColumns(txt: string, k: int, b: int)
    requires 0 <= k < |txt| && b == k * (LetterWidth + Gap)
    ensures b + LetterWidth <= Width(|txt|)
    ensures forall x, r :: b <= x < b + LetterWidth && 0 <= r < Rows ==>
              PatternCell(txt, x, r) == GlyphBit(txt[k], r, x - b)
  {
    forall x, r | b <= x < b + LetterWidth && 0 <= r < Rows
      ensures PatternCell(txt, x, r) == GlyphBit(txt[k], r, x - b)
    {
      assert x / (LetterWidth + Gap) == k && x % (LetterWidth + Gap) == x - b;
    }
  }

  /** Column `x`, the gap after letter `k`, is blank. */
  lemma GapCell(txt: string, k: int, x: int)
    requires 0 <= k && x == k * (LetterWidth + Gap) + LetterWidth && x < Width(|txt|)
    ensures forall r :: 0 <= r < Rows ==> PatternCell(txt, x, r) == 0
  {
    assert x % (LetterWidth + Gap) == LetterWidth;
  }

  /**
   * Copies the glyph of `ch` into the five columns from `cursor` on, column by
   * column and row by row; every other cell is left as it was.
   */
  method DrawGlyph(pattern: array2<int>, ch: char, cursor: int)
    requires pattern.Length1 == Rows && 0 <= cursor && cursor + LetterWidth <= pattern.Length0
    modifies pattern
    ensures forall x, y :: 0 <= x < pattern.Length0 && 0 <= y < Rows ==>
              pattern[x, y] == if cursor <= x < cursor + LetterWidth then GlyphBit(ch, y, x - cursor) else old(pattern[x, y])
  {
    var glyph := Glyph(ch);
    var c := 0;
    while c < |glyph[0]|
      invariant 0 <= c <= LetterWidth
      invariant forall x, y :: 0 <= x < pattern.Length0 && 0 <= y < Rows ==>
                  pattern[x, y] == if cursor <= x < cursor + c then GlyphBit(ch, y, x - cursor) else old(pattern[x, y])
    {
      var col := cursor + c;
      var r := 0;
      while r < Rows
        invariant 0 <= r <= Rows
        invariant forall x, y :: 0 <= x < pattern.Length0 && 0 <= y < Rows ==>
                    pattern[x, y] == if cursor <= x < col || (x == col && y < r) then GlyphBit(ch, y, x - cursor) else old(pattern[x, y])
      {
        pattern[col, r] := if glyph[r][c] == '1' then 1 else 0;
        r := r + 1;
      }
      c := c + 1;
    }
  }

  /** Builds the pattern of `txt` in a fresh buffer, glyph by glyph at a moving cursor. */
  method BuildPattern(txt: string) returns (pattern: array2<int>)
    ensures fresh(pattern)
    ensures pattern.Length0 == Width(|txt|) && pattern.Length1 == Rows
    ensures Columns(pattern) == Pattern(txt)
  {
    var cols := |txt| * (LetterWidth + Gap) - Gap;
    pattern := new int[if cols < 0 then 0 else cols, Rows]((_, _) => 0);
    var w := pattern.Length0;
    var cursor := 0;
    var k := 0;
    while k < |txt|
      invariant 0 <= k <= |txt| && cursor == k * (LetterWidth + Gap)
      invariant forall x, y :: 0 <= x < cursor && x < w && 0 <= y < Rows ==> pattern[x, y] == PatternCell(txt, x, y)
      invariant forall x, y :: cursor <= x < w && 0 <= y < Rows ==> pattern[x, y] == 0
    {
      LetterColumns(txt, k, cursor);
      DrawGlyph(pattern, txt[k], cursor);
      forall x, y | 0 <= x < cursor + LetterWidth + Gap && x < w && 0 <= y < Rows
        ensures pattern[x, y] == PatternCell(txt, x, y)
      {
        if x == cursor + LetterWidth {
          GapCell(txt, k, x);
        }
      }
      cursor := cursor + LetterWidth + Gap;
      k := k + 1;
    }
    forall c | 0 <= c < w
      ensures Columns(pattern)[c] == Pattern(txt)[c]
    {
    }
  }
}
