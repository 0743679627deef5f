/** The text a terminal shows: an unbounded sheet that is typed on, and the pixels it stands for. */
module Sheets {
  import opened Arithmetic
  import opened Machine
  import opened Numerals

  const GLYPH_WIDTH := 8
  const LINE_HEIGHT := 9

  /** One row of bits for each of the eight pixel rows of each of the 128 characters. */
  type Font = seq<seq<nat>>

  predicate ValidFont(font: Font) {
    && |font| == 128
    && (forall c :: 0 <= c < 128 ==> |font[c]| == 8)
    && (forall y :: 0 <= y < 8 ==> font[32][y] == 0)
  }

  /** Bit i of a number. */
  predicate Bit(v: nat, i: nat) {
    if i == 0 then v % 2 == 1 else Bit(v / 2, i - 1)
  }

  /** Bit i is the last binary digit of what a shift by i leaves. */
  lemma {:induction false} BitIs(v: nat, i: nat)
    ensures Bit(v, i) <==> v / Pow(2, i) % 2 == 1
  {
    if i == 0 {
      DivUnique(v, 1, v, 0);
    } else {
      BitIs(v / 2, i - 1);
      HalfFirst(v, Pow(2, i - 1));
    }
  }

  lemma HalfFirst(v: nat, p: nat)
    requires p > 0
    ensures v / (p * 2) == v / 2 / p
  {
    var q, r := v / 2 / p, v / 2 % p;
    DivMod(v / 2, p);
    assert v == q * (p * 2) + (2 * r + v % 2);
    DivUnique(v, p * 2, q, 2 * r + v % 2);
  }

  lemma {:induction false} ZeroHasNoBits(i: nat)
    ensures !Bit(0, i)
  {
    if i > 0 {
      ZeroHasNoBits(i - 1);
    }
  }

  predicate GlyphBit(font: Font, c: nat, x: nat, y: nat)
    requires ValidFont(font)
  {
    c < 128 && x < 8 && y < 8 && Bit(font[c][y], x)
  }

  lemma GlyphBitIs(font: Font, c: nat, x: nat, y: nat)
    requires ValidFont(font) && x < 8 && y < 8
    ensures GlyphBit(font, c, x, y) <==> c < 128 && font[c][y] / Pow(2, x) % 2 == 1
  {
    BitIs(if c < 128 then font[c][y] else 0, x);
  }

  /** A glyph typed at a text position; glyphs typed at the same position are laid over each other. */
  datatype Mark = Mark(row: nat, col: nat, glyph: nat)

  datatype Sheet = Sheet(col: nat, row: nat, marks: set<Mark>)

  const BLANK := Sheet(0, 0, {})

  /** Running off the right edge continues on the next line. */
  function Wrap(s: Sheet, cols: nat): Sheet {
    if s.col >= cols then s.(col := 0, row := s.row + 1) else s
  }

  /** Moves of the cursor and marks on the sheet, for a signed character. */
  function Strike(s: Sheet, c: int): Sheet {
    if c == 0x08 then s.(col := Max(s.col - 1, 0))
    else if c == 0x09 then s.(col := (s.col / 8 + 1) * 8)
    else if c == 0x0D then s.(col := 0)
    else if c == 0x0A then s.(col := 0, row := s.row + 1)
    else if c >= 0x20 then s.(marks := s.marks + {Mark(s.row, s.col, c)}, col := s.col + 1)
    else s
  }

  function Type(s: Sheet, c: int, cols: nat): Sheet {
    Wrap(Strike(s, c), cols)
  }

  function TypeAll(s: Sheet, text: seq<int>, cols: nat): Sheet {
    if text == [] then s else Type(TypeAll(s, text[..|text| - 1], cols), text[|text| - 1], cols)
  }

  /** The first line still visible on a screen of this many lines. */
  function Top(s: Sheet, lines: nat): nat {
    Max(0, s.row - lines + 1)
  }

  predicate Inks(m: Mark, font: Font, x: nat, y: nat)
    requires ValidFont(font)
  {
    m.row == y / LINE_HEIGHT && m.col == x / GLYPH_WIDTH && y % LINE_HEIGHT != 0
    && GlyphBit(font, m.glyph, x % GLYPH_WIDTH, y % LINE_HEIGHT - 1)
  }

  /** The pixel (x, y) of the whole sheet; each line starts with an empty pixel row. */
  predicate Lit(s: Sheet, font: Font, x: nat, y: nat)
    requires ValidFont(font)
  {
    exists m :: m in s.marks && Inks(m, font, x, y)
  }

  /** The cursor stays inside the line, and nothing is marked below it or beyond the edge. */
  predicate Bounded(s: Sheet, cols: nat) {
    s.col < cols && forall m :: m in s.marks ==> m.row <= s.row && m.col < cols
  }

  lemma TypeBounded(s: Sheet, c: int, cols: nat)
    requires Bounded(s, cols)
    ensures Bounded(Type(s, c, cols), cols) && s.row <= Type(s, c, cols).row <= s.row + 1
    ensures Type(s, c, cols).row > s.row ==> forall m :: m in Type(s, c, cols).marks ==> m.row <= s.row
    ensures s.marks <= Type(s, c, cols).marks
  {
  }

  lemma StrikeBack(s: Sheet)
    ensures Strike(s, 0x08) == s.(col := Max(s.col - 1, 0))
  {
  }

  /** A space that does not reach the edge. */
  lemma TypeSpace(s: Sheet, cols: nat)
    requires s.col + 1 < cols
    ensures Type(s, 0x20, cols) == Sheet(s.col + 1, s.row, s.marks + {Mark(s.row, s.col, 0x20)})
  {
  }

  lemma LitMarks(s: Sheet, t: Sheet, font: Font, x: nat, y: nat)
    requires ValidFont(font) && s.marks == t.marks
    ensures Lit(s, font, x, y) == Lit(t, font, x, y)
  {
  }

  /** A space leaves no ink, so a backspace that types one erases nothing. */
  lemma SpaceIsInvisible(s: Sheet, m: Mark, font: Font, x: nat, y: nat)
    requires ValidFont(font) && m.glyph == 0x20
    ensures Lit(s.(marks := s.marks + {m}), font, x, y) == Lit(s, font, x, y)
  {
    ZeroHasNoBits(x % GLYPH_WIDTH);
    assert !Inks(m, font, x, y);
    var t := s.(marks := s.marks + {m});
    if Lit(t, font, x, y) {
      var k :| k in t.marks && Inks(k, font, x, y);
      assert k in s.marks;
    }
    if Lit(s, font, x, y) {
      var k :| k in s.marks && Inks(k, font, x, y);
      assert k in t.marks;
    }
  }

  /** Marking a glyph lights exactly its pixels in addition. */
  lemma MarkAddsGlyph(s: Sheet, c: nat, font: Font, x: nat, y: nat)
    requires ValidFont(font)
    ensures Lit(s.(marks := s.marks + {Mark(s.row, s.col, c)}), font, x, y)
            == (Lit(s, font, x, y)
                || (s.col * GLYPH_WIDTH <= x < s.col * GLYPH_WIDTH + 8
                    && s.row * LINE_HEIGHT + 1 <= y < s.row * LINE_HEIGHT + 9
                    && GlyphBit(font, c, x - s.col * GLYPH_WIDTH, y - s.row * LINE_HEIGHT - 1)))
  {
    var m := Mark(s.row, s.col, c);
    var t := s.(marks := s.marks + {m});
    if Lit(t, font, x, y) {
      var k :| k in t.marks && Inks(k, font, x, y);
      assert k in s.marks || k == m;
    }
    if Lit(s, font, x, y) {
      var k :| k in s.marks && Inks(k, font, x, y);
      assert k in t.marks;
    }
    assert m in t.marks;
    assert x / 8 == s.col <==> s.col * 8 <= x < s.col * 8 + 8;
  }

  /** Below the last marked line everything is dark. */
  lemma DarkBelow(s: Sheet, font: Font, x: nat, y: nat, line: nat)
    requires ValidFont(font) && y >= line * LINE_HEIGHT && forall m :: m in s.marks ==> m.row < line
    ensures !Lit(s, font, x, y)
  {
  }

  /** On a screen of this many lines the pixel rows between and below the lines stay dark, and so
      do the pixels to the right of the last column. */
  lemma WindowDark(s: Sheet, cols: nat, lines: nat, font: Font, x: nat, y: nat)
    requires ValidFont(font) && Bounded(s, cols) && lines > 0
    requires y >= lines * LINE_HEIGHT || y % LINE_HEIGHT == 0 || x >= cols * GLYPH_WIDTH
    ensures !Lit(s, font, x, y + Top(s, lines) * LINE_HEIGHT)
  {
    var row := y + Top(s, lines) * LINE_HEIGHT;
    if y >= lines * LINE_HEIGHT {
      DarkBelow(s, font, x, row, s.row + 1);
    } else if y % LINE_HEIGHT == 0 {
      assert row % LINE_HEIGHT == 0;
    } else {
      assert x / GLYPH_WIDTH >= cols;
    }
  }

  /** Typing a character and a backspace brings the cursor back, but not the ink. */
  lemma BackspaceKeepsInk(s: Sheet, c: int, cols: nat)
    requires 0x20 <= c < 0x80 && s.col + 1 < cols
    ensures Type(Type(s, c, cols), 0x08, cols) == s.(marks := s.marks + {Mark(s.row, s.col, c)})
  {
  }

  // ----- whole texts

  lemma {:induction false} TypeAllConcat(s: Sheet, a: seq<int>, b: seq<int>, cols: nat)
    ensures TypeAll(s, a + b, cols) == TypeAll(TypeAll(s, a, cols), b, cols)
  {
    if b == [] {
      assert a + b == a;
    } else {
      assert (a + b)[..|a + b| - 1] == a + b[..|b| - 1];
      TypeAllConcat(s, a, b[..|b| - 1], cols);
    }
  }

  lemma {:induction false} TypeAllBounded(s: Sheet, text: seq<int>, cols: nat)
    requires Bounded(s, cols)
    ensures Bounded(TypeAll(s, text, cols), cols)
  {
    if text != [] {
      TypeAllBounded(s, text[..|text| - 1], cols);
      TypeBounded(TypeAll(s, text[..|text| - 1], cols), text[|text| - 1], cols);
    }
  }

  function PlainMark(c: int, i: nat, cols: nat): Mark
    requires cols > 0 && c >= 0
  {
    DivNonNegative(i, cols);
    Mark(i / cols, i % cols, c)
  }

  ghost predicate Plain(text: seq<int>) {
    forall i :: 0 <= i < |text| ==> 0x20 <= text[i] < 0x80
  }

  ghost function PlainMarks(text: seq<int>, cols: nat): set<Mark>
    requires cols > 0 && Plain(text)
  {
    set i | 0 <= i < |text| :: PlainMark(text[i], i, cols)
  }

  lemma PlainMarksSnoc(text: seq<int>, cols: nat)
    requires cols > 0 && Plain(text) && text != []
    ensures var n := |text| - 1;
            PlainMarks(text, cols) == PlainMarks(text[..n], cols) + {PlainMark(text[n], n, cols)}
  {
    var n := |text| - 1;
    forall m
      ensures m in PlainMarks(text, cols) <==> m in PlainMarks(text[..n], cols) + {PlainMark(text[n], n, cols)}
    {
      if m in PlainMarks(text, cols) {
        var i :| 0 <= i < |text| && m == PlainMark(text[i], i, cols);
        assert i < n ==> text[..n][i] == text[i];
      }
      if m in PlainMarks(text[..n], cols) {
        var i :| 0 <= i < n && m == PlainMark(text[..n][i], i, cols);
        assert text[i] == text[..n][i];
      }
    }
  }

  /** Typing on never removes or moves a mark, and never goes back to an earlier line. */
  lemma {:induction false} MarksStay(s: Sheet, text: seq<int>, cols: nat)
    requires Bounded(s, cols)
    ensures s.marks <= TypeAll(s, text, cols).marks && s.row <= TypeAll(s, text, cols).row
  {
    if text != [] {
      MarksStay(s, text[..|text| - 1], cols);
      TypeAllBounded(s, text[..|text| - 1], cols);
      TypeBounded(TypeAll(s, text[..|text| - 1], cols), text[|text| - 1], cols);
    }
  }

  /** Printable text on a blank sheet is laid out row by row, cols characters to a row. */
  lemma {:induction false} PlainTextLayout(text: seq<int>, cols: nat)
    requires cols > 0 && Plain(text)
    ensures var s := TypeAll(BLANK, text, cols);
            s.row == |text| / cols && s.col == |text| % cols && s.marks == PlainMarks(text, cols)
  {
    if text == [] {
      DivSmall(0, cols);
    } else {
      var n := |text| - 1;
      PlainTextLayout(text[..n], cols);
      PlainMarksSnoc(text, cols);
      DivNext(n, cols);
      DivMod(n, cols);
    }
  }

  /** Marks of a plain text ink a pixel exactly when the character of its cell does. */
  lemma PlainInk(text: seq<int>, cols: nat, font: Font, x: nat, y: nat, m: Mark)
    requires ValidFont(font) && cols > 0 && Plain(text) && m in PlainMarks(text, cols) && Inks(m, font, x, y)
    ensures var i := y / LINE_HEIGHT * cols + x / GLYPH_WIDTH;
            && x / GLYPH_WIDTH < cols && i < |text| && y % LINE_HEIGHT != 0
            && GlyphBit(font, text[i], x % GLYPH_WIDTH, y % LINE_HEIGHT - 1)
  {
    hide GlyphBit;
    var k :| 0 <= k < |text| && m == PlainMark(text[k], k, cols);
    DivMod(k, cols);
    assert k == y / LINE_HEIGHT * cols + x / GLYPH_WIDTH;
  }

  lemma PlainTextBits(text: seq<int>, cols: nat, font: Font, x: nat, y: nat)
    requires ValidFont(font) && cols > 0 && Plain(text)
    ensures var i := y / LINE_HEIGHT * cols + x / GLYPH_WIDTH;
            Lit(TypeAll(BLANK, text, cols), font, x, y)
            <==> x / GLYPH_WIDTH < cols && i < |text| && y % LINE_HEIGHT != 0
                 && GlyphBit(font, text[i], x % GLYPH_WIDTH, y % LINE_HEIGHT - 1)
  {
    hide TypeAll, GlyphBit, PlainMarks, Inks;
    var row, col := y / LINE_HEIGHT, x / GLYPH_WIDTH;
    var i, s := row * cols + col, TypeAll(BLANK, text, cols);
    PlainTextLayout(text, cols);
    if Lit(s, font, x, y) {
      var m :| m in s.marks && Inks(m, font, x, y);
      PlainInk(text, cols, font, x, y, m);
    }
    if col < cols && i < |text| && y % LINE_HEIGHT != 0
       && GlyphBit(font, text[i], x % GLYPH_WIDTH, y % LINE_HEIGHT - 1) {
      InkOfCell(text, cols, font, x, y);
    }
  }

  lemma InkOfCell(text: seq<int>, cols: nat, font: Font, x: nat, y: nat)
    requires ValidFont(font) && cols > 0 && Plain(text) && x / GLYPH_WIDTH < cols && y % LINE_HEIGHT != 0
    requires var i := y / LINE_HEIGHT * cols + x / GLYPH_WIDTH;
             i < |text| && GlyphBit(font, text[i], x % GLYPH_WIDTH, y % LINE_HEIGHT - 1)
    ensures exists m :: m in PlainMarks(text, cols) && Inks(m, font, x, y)
  {
    hide GlyphBit;
    var i := y / LINE_HEIGHT * cols + x / GLYPH_WIDTH;
    DivUnique(i, cols, y / LINE_HEIGHT, x / GLYPH_WIDTH);
    assert PlainMark(text[i], i, cols) in PlainMarks(text, cols) && Inks(PlainMark(text[i], i, cols), font, x, y);
  }

  /** Pixel by pixel: printable text on a blank sheet lights exactly those pixels whose bit, in the row of
      the font for the character in their cell, is set; the first pixel row of a line is empty. */
  lemma PlainTextPixels(text: seq<int>, cols: nat, font: Font, x: nat, y: nat)
    requires ValidFont(font) && cols > 0 && Plain(text)
    ensures var i, row := y / 9 * cols + x / 8, y % 9;
            Lit(TypeAll(BLANK, text, cols), font, x, y)
            <==> x / 8 < cols && i < |text| && row > 0 && font[text[i]][row - 1] / Pow(2, x % 8) % 2 == 1
  {
    hide GlyphBit, Lit, TypeAll;
    PlainTextBits(text, cols, font, x, y);
    var i := y / 9 * cols + x / 8;
    if i < |text| && y % 9 > 0 {
      GlyphBitIs(font, text[i], x % 8, y % 9 - 1);
    }
  }

  // ----- single characters and lines

  /** A line feed starts the next line, and a carriage return the same one. */
  lemma LineEnds(s: Sheet, cols: nat)
    requires s.col < cols
    ensures TypeAll(s, [0x0A], cols) == Sheet(0, s.row + 1, s.marks)
    ensures TypeAll(s, [0x0D], cols) == Sheet(0, s.row, s.marks)
  {
    OneCharacter(s, 0x0A, cols);
    OneCharacter(s, 0x0D, cols);
  }

  /** A tab moves to the least multiple of eight above the column, or to the next line at the edge. */
  lemma TabStop(s: Sheet, cols: nat) returns (stop: nat)
    requires s.col < cols
    ensures s.col < stop <= s.col + 8 && stop % 8 == 0
    ensures TypeAll(s, [0x09], cols)
            == if stop < cols then Sheet(stop, s.row, s.marks) else Sheet(0, s.row + 1, s.marks)
  {
    stop := (s.col / 8 + 1) * 8;
    OneCharacter(s, 0x09, cols);
  }

  /** A printable character leaves its mark and moves on; a backspace moves back; other characters,
      and those that are negative, do nothing. */
  lemma OtherKeys(s: Sheet, c: int, cols: nat)
    requires s.col < cols
    ensures 0x20 <= c < 0x80 ==>
              TypeAll(s, [c], cols)
              == if s.col + 1 < cols then Sheet(s.col + 1, s.row, s.marks + {Mark(s.row, s.col, c)})
                 else Sheet(0, s.row + 1, s.marks + {Mark(s.row, s.col, c)})
    ensures TypeAll(s, [0x08], cols) == Sheet(if s.col == 0 then 0 else s.col - 1, s.row, s.marks)
    ensures c < 0x20 && c != 0x08 && c != 0x09 && c != 0x0A && c != 0x0D ==> TypeAll(s, [c], cols) == s
  {
    OneCharacter(s, c, cols);
    OneCharacter(s, 0x08, cols);
  }

  lemma OneCharacter(s: Sheet, c: int, cols: nat)
    ensures TypeAll(s, [c], cols) == Type(s, c, cols)
  {
    assert [c][..0] == [];
  }

  /** Lines with a line feed between them. */
  function Joined(lines: seq<seq<int>>): seq<int> {
    if lines == [] then []
    else if |lines| == 1 then lines[0]
    else Joined(lines[..|lines| - 1]) + [0x0A] + lines[|lines| - 1]
  }

  /** Printable text that fits in what is left of the line. */
  lemma {:induction false} LineLayout(s: Sheet, line: seq<int>, cols: nat)
    requires s.col == 0 && |line| < cols && Plain(line)
    ensures var t := TypeAll(s, line, cols);
            && t.row == s.row && t.col == |line|
            && forall m :: m in t.marks <==>
                 m in s.marks || (m.row == s.row && m.col < |line| && m.glyph == line[m.col])
  {
    if line != [] {
      var n := |line| - 1;
      LineLayout(s, line[..n], cols);
    }
  }

  /** Lines of printable characters, each shorter than the screen is wide, stand below each other:
      character i of line j is at row j and column i, there is nothing else, and the cursor is behind
      the last line. */
  lemma {:induction false} LinesLayout(lines: seq<seq<int>>, cols: nat)
    requires lines != [] && forall j :: 0 <= j < |lines| ==> Plain(lines[j]) && |lines[j]| < cols
    ensures var s := TypeAll(BLANK, Joined(lines), cols);
            && s.row == |lines| - 1 && s.col == |lines[|lines| - 1]|
            && forall m :: m in s.marks <==>
                 m.row < |lines| && m.col < |lines[m.row]| && m.glyph == lines[m.row][m.col]
  {
    hide TypeAll, Plain;
    var last := lines[|lines| - 1];
    if |lines| == 1 {
      LineLayout(BLANK, last, cols);
    } else {
      var init := lines[..|lines| - 1];
      LinesLayout(init, cols);
      var s := TypeAll(BLANK, Joined(init), cols);
      TypeAllConcat(BLANK, Joined(init), [0x0A], cols);
      TypeAllConcat(BLANK, Joined(init) + [0x0A], last, cols);
      LineEnds(s, cols);
      LineLayout(Sheet(0, s.row + 1, s.marks), last, cols);
    }
  }

  /** The window ends with the cursor's line, or starts with the first line. */
  lemma WindowIs(s: Sheet, lines: nat)
    requires lines > 0
    ensures Top(s, lines) <= s.row < Top(s, lines) + lines
    ensures Top(s, lines) > 0 ==> s.row + 1 == Top(s, lines) + lines
  {
  }
}
