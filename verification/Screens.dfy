/** The framebuffer terminal: pixels, glyphs, scrolling and the text cursor. */
module Screens {
  import opened Arithmetic
  import opened Machine
  import opened Numerals
  import opened Geometry
  import opened Sheets

  type Byte = b: int | 0 <= b < 256

  const FOREGROUND: Word := 0xFFFF_FFFF
  const BACKGROUND: Word := 0

  /** Byte c of a colour: blue, green, red, alpha. */
  function ColorByte(color: Word, c: nat): Byte
    requires c < 4
  {
    if c == 0 then color % 0x100
    else if c == 1 then color / 0x100 % 0x100
    else if c == 2 then color / 0x1_0000 % 0x100
    else color / 0x100_0000
  }

  /** A colour is its four bytes, blue lowest and alpha highest. */
  lemma ColorBytes(color: Word)
    ensures color == ColorByte(color, 0) + 0x100 * ColorByte(color, 1) + 0x1_0000 * ColorByte(color, 2)
                     + 0x100_0000 * ColorByte(color, 3)
  {
    var low, middle := color / 0x100, color / 0x100 / 0x100;
    DivMod(color, 0x100);
    DivMod(low, 0x100);
    DivMod(middle, 0x100);
    DivUnique(color, 0x1_0000, middle, 0x100 * (low % 0x100) + color % 0x100);
    DivUnique(color, 0x100_0000, middle / 0x100,
              0x1_0000 * (middle % 0x100) + 0x100 * (low % 0x100) + color % 0x100);
  }

  /** How the machine rounds the results of the operations of a blend: the quotient that is stored
      as a share, the product with it, and the sum. */
  datatype Rounding = Rounding(quotient: real -> real, product: real -> real, sum: real -> real)

  /** An order-preserving function that leaves the small integers alone, as rounding to any binary
      floating-point format does. */
  ghost predicate Rounds(round: real -> real) {
    && (forall x, y :: x <= y ==> round(x) <= round(y))
    && (forall i: int :: -255 <= i <= 255 ==> Fixes(round, i))
  }

  predicate Fixes(round: real -> real, i: int) {
    round(i as real) == i as real
  }

  ghost predicate ValidRounding(rounding: Rounding) {
    Rounds(rounding.quotient) && Rounds(rounding.product) && Rounds(rounding.sum)
  }

  lemma FixesInt(round: real -> real, i: int)
    requires Rounds(round) && -255 <= i <= 255
    ensures round(i as real) == i as real
  {
    assert Fixes(round, i);
  }

  lemma KeepsOrder(round: real -> real, x: real, y: real)
    requires Rounds(round) && x <= y
    ensures round(x) <= round(y)
  {
  }

  /** a + alpha / 255 * (b - a), rounded after every operation and cut down to an integer. */
  function Lerp(a: Byte, b: Byte, alpha: Byte, rounding: Rounding): (r: Byte)
    requires ValidRounding(rounding)
    ensures alpha == 255 ==> r == b
    ensures alpha == 0 ==> r == a
    ensures Min(a, b) <= r <= Max(a, b)
  {
    BlendBounds(a, b, alpha, rounding);
    Blend(a, b, alpha, rounding).Floor
  }

  /** Without rounding a blend is the weighted mean, cut down. */
  lemma LerpExact(a: Byte, b: Byte, alpha: Byte, rounding: Rounding)
    requires ValidRounding(rounding)
    requires forall x :: rounding.quotient(x) == rounding.product(x) == rounding.sum(x) == x
    ensures Lerp(a, b, alpha, rounding) == (a * (255 - alpha) + b * alpha) / 255
  {
    hide ValidRounding;
    var mean := a * (255 - alpha) + b * alpha;
    var q, r := mean / 255, mean % 255;
    assert Blend(a, b, alpha, rounding) == a as real + (alpha as real / 255.0) * (b - a) as real;
    assert 255.0 * Blend(a, b, alpha, rounding) == 255.0 * a as real + alpha as real * (b - a) as real;
    assert alpha as real * (b - a) as real == (alpha * (b - a)) as real;
    assert 255 * a + alpha * (b - a) == mean;
    assert 255.0 * Blend(a, b, alpha, rounding) == mean as real == (255 * q + r) as real;
  }

  function Scale(v: real, d: real): real {
    v * d
  }

  /** The part alpha / 255 of a difference. */
  function Portion(d: real, alpha: Byte, rounding: Rounding): real {
    rounding.product(Scale(rounding.quotient(alpha as real / 255.0), d))
  }

  function Blend(a: Byte, b: Byte, alpha: Byte, rounding: Rounding): real {
    rounding.sum(a as real + Portion((b - a) as real, alpha, rounding))
  }

  lemma BlendBounds(a: Byte, b: Byte, alpha: Byte, rounding: Rounding)
    requires ValidRounding(rounding)
    ensures Min(a, b) as real <= Blend(a, b, alpha, rounding) <= Max(a, b) as real
    ensures alpha == 255 ==> Blend(a, b, alpha, rounding) == b as real
    ensures alpha == 0 ==> Blend(a, b, alpha, rounding) == a as real
  {
    hide Rounds, Scale;
    var v, d, product := rounding.quotient(alpha as real / 255.0), (b - a) as real, rounding.product;
    QuotientBounds(alpha, rounding.quotient);
    Between(v, d);
    FixesInt(product, b - a);
    FixesInt(product, 0);
    if d >= 0.0 {
      KeepsOrder(product, 0.0, Scale(v, d));
      KeepsOrder(product, Scale(v, d), d);
    } else {
      KeepsOrder(product, Scale(v, d), 0.0);
      KeepsOrder(product, d, Scale(v, d));
    }
    SumBounds(a, b, Portion(d, alpha, rounding), rounding.sum);
  }

  lemma QuotientBounds(alpha: Byte, round: real -> real)
    requires Rounds(round)
    ensures var v := round(alpha as real / 255.0);
            0.0 <= v <= 1.0 && (alpha == 255 ==> v == 1.0) && (alpha == 0 ==> v == 0.0)
  {
    hide Rounds;
    FixesInt(round, 0);
    FixesInt(round, 1);
    KeepsOrder(round, 0.0, alpha as real / 255.0);
    KeepsOrder(round, alpha as real / 255.0, 1.0);
  }

  lemma SumBounds(a: Byte, b: Byte, portion: real, round: real -> real)
    requires Rounds(round) && Min(0, b - a) as real <= portion <= Max(0, b - a) as real
    ensures Min(a, b) as real <= round(a as real + portion) <= Max(a, b) as real
    ensures portion == 0.0 ==> round(a as real + portion) == a as real
    ensures portion == (b - a) as real ==> round(a as real + portion) == b as real
  {
    hide Rounds;
    FixesInt(round, a);
    FixesInt(round, b);
    KeepsOrder(round, Min(a, b) as real, a as real + portion);
    KeepsOrder(round, a as real + portion, Max(a, b) as real);
  }

  lemma Between(v: real, d: real)
    requires 0.0 <= v <= 1.0
    ensures d >= 0.0 ==> 0.0 <= Scale(v, d) <= d
    ensures d <= 0.0 ==> d <= Scale(v, d) <= 0.0
    ensures v == 0.0 ==> Scale(v, d) == 0.0
    ensures v == 1.0 ==> Scale(v, d) == d
  {
  }

  /** A greater alpha never moves a blend away from the new value, however each operation rounds. */
  lemma LerpMonotone(a: Byte, b: Byte, alpha: Byte, beta: Byte, rounding: Rounding)
    requires ValidRounding(rounding) && alpha <= beta
    ensures a <= b ==> Lerp(a, b, alpha, rounding) <= Lerp(a, b, beta, rounding)
    ensures b <= a ==> Lerp(a, b, beta, rounding) <= Lerp(a, b, alpha, rounding)
  {
    hide Rounds, Scale;
    var v, w := rounding.quotient(alpha as real / 255.0), rounding.quotient(beta as real / 255.0);
    var d := (b - a) as real;
    KeepsOrder(rounding.quotient, alpha as real / 255.0, beta as real / 255.0);
    Scaled(v, w, d);
    var x, y := Portion(d, alpha, rounding), Portion(d, beta, rounding);
    if a <= b {
      KeepsOrder(rounding.product, Scale(v, d), Scale(w, d));
      KeepsOrder(rounding.sum, a as real + x, a as real + y);
    }
    if b <= a {
      KeepsOrder(rounding.product, Scale(w, d), Scale(v, d));
      KeepsOrder(rounding.sum, a as real + y, a as real + x);
    }
  }

  lemma Scaled(v: real, w: real, d: real)
    requires v <= w
    ensures d >= 0.0 ==> Scale(v, d) <= Scale(w, d)
    ensures d <= 0.0 ==> Scale(w, d) <= Scale(v, d)
  {
  }

  lemma InkColors(c: nat)
    requires c < 4
    ensures ColorByte(FOREGROUND, c) == 255 && ColorByte(BACKGROUND, c) == 0
  {
  }

  /** The colours of everything before `length` come from `offset` bytes further on; the rest is zero. */
  ghost predicate Moved(before: seq<Byte>, after: seq<Byte>, offset: nat, length: nat, b: nat)
    requires b > 0 && |before| == |after| == offset + length
  {
    forall j {:trigger after[j]} :: 0 <= j < |after| ==>
      after[j] == if j >= length then 0 else if ChannelOf(j, b) < 3 then before[j + offset] else before[j]
  }

  /** What moving bytes means for one channel of one pixel. */
  lemma MovedByte(before: seq<Byte>, after: seq<Byte>, w: nat, h: nat, b: nat, x: nat, y: nat, c: nat)
    requires x < w && 9 <= h && y < h && c < b
    requires |before| == |after| == Size(w, h, b) == Offset(w, b, 0, 9) + Offset(w, b, 0, h - 9)
    requires Moved(before, after, Offset(w, b, 0, 9), Offset(w, b, 0, h - 9), b)
    ensures Offset(w, b, x, y) + b <= Size(w, h, b) && (y < h - 9 ==> Offset(w, b, x, y + 9) + b <= Size(w, h, b))
    ensures after[Offset(w, b, x, y) + c]
            == if y >= h - 9 then 0 else if c < 3 then before[Offset(w, b, x, y + 9) + c]
               else before[Offset(w, b, x, y) + c]
  {
    ByteNineRowsUp(w, h, b, x, y, c);
    OffsetInside(w, h, b, x, y);
    if y < h - 9 {
      OffsetInside(w, h, b, x, y + 9);
    }
  }

  /** The pixel (x, y) of a screen of `lines` lines of `cols` characters, on which a printable text has
      scrolled as far as it must: the bit of the font for the character in its cell. */
  predicate PlainPixel(text: seq<int>, font: Font, cols: nat, lines: nat, x: nat, y: nat)
    requires cols > 0 && ValidFont(font) && Plain(text)
  {
    var top := if |text| / cols < lines then 0 else |text| / cols - lines + 1;
    TimesMonotone(0, y / 9 + top, cols);
    var i, row := (y / 9 + top) * cols + x / 8, y % 9;
    x / 8 < cols && i < |text| && row > 0 && font[text[i]][row - 1] / Pow(2, x % 8) % 2 == 1
  }

  lemma WindowCell(y: nat, top: nat)
    ensures (y + top * LINE_HEIGHT) / LINE_HEIGHT == y / LINE_HEIGHT + top
    ensures (y + top * LINE_HEIGHT) % LINE_HEIGHT == y % LINE_HEIGHT
  {
  }

  class Screen {
    const width: nat
    const height: nat
    const bpp: nat
    const font: Font
    const rounding: Rounding
    const fb: array<Byte>
    var csrX: Word
    var csrY: Word
    ghost var sheet: Sheet

    function Cols(): nat {
      width / 8
    }

    function Lines(): nat {
      height / 9
    }

    /** A screen on which at least one line of two characters fits. */
    ghost predicate Shape() {
      && 16 <= width < 0x1_0000 && 9 <= height < 0x1_0000 && (bpp == 3 || bpp == 4) && ValidFont(font)
      && ValidRounding(rounding) && fb.Length == Size(width, height, bpp) < 0x8000_0000
    }

    ghost predicate Inside(x: int, y: int) {
      0 <= x < width && 0 <= y < height
    }

    ghost function Channel(x: nat, y: nat, c: nat): Byte
      requires Shape() && Inside(x, y) && c < bpp
      reads fb
    {
      OffsetInside(width, height, bpp, x, y);
      fb[Offset(width, bpp, x, y) + c]
    }

    /** Blends the three colours of the pixel whose bytes start at `where`. */
    method BlendAt(where: nat, ghost x: nat, ghost y: nat, color: Word)
      requires Shape() && Inside(x, y) && where == Offset(width, bpp, x, y)
      modifies fb
      ensures forall x', y', c {:trigger Channel(x', y', c)} :: Inside(x', y') && 0 <= c < bpp ==>
        Channel(x', y', c)
        == if x' == x && y' == y && c < 3
           then Lerp(old(Channel(x', y', c)), ColorByte(color, c), ColorByte(color, 3), rounding)
           else old(Channel(x', y', c))
    {
      hide Lerp, ValidRounding;
      OffsetInside(width, height, bpp, x, y);
      var a := ColorByte(color, 3);
      fb[where] := Lerp(fb[where], ColorByte(color, 0), a, rounding);
      fb[where + 1] := Lerp(fb[where + 1], ColorByte(color, 1), a, rounding);
      fb[where + 2] := Lerp(fb[where + 2], ColorByte(color, 2), a, rounding);
      forall x', y', c {:trigger Channel(x', y', c)} | Inside(x', y') && 0 <= c < bpp
        ensures Channel(x', y', c)
                == if x' == x && y' == y && c < 3
           then Lerp(old(Channel(x', y', c)), ColorByte(color, c), a, rounding)
                   else old(Channel(x', y', c))
      {
        if x' != x || y' != y {
          OffsetsApart(width, bpp, x, y, x', y');
        }
      }
    }

    method PutPixel(x: nat, y: nat, color: Word)
      requires Shape() && Inside(x, y)
      modifies fb
      ensures forall x', y', c {:trigger Channel(x', y', c)} :: Inside(x', y') && 0 <= c < bpp ==>
        Channel(x', y', c)
        == if x' == x && y' == y && c < 3
           then Lerp(old(Channel(x', y', c)), ColorByte(color, c), ColorByte(color, 3), rounding)
           else old(Channel(x', y', c))
    {
      hide Lerp, ValidRounding;
      BlendAt(Offset(width, bpp, x, y), x, y, color);
    }

    /** A pixel of a glyph: the foreground is opaque, the background is transparent. */
    method InkPixel(x: nat, y: nat, bit: bool)
      requires Shape() && Inside(x, y)
      modifies fb
      ensures forall x', y', c {:trigger Channel(x', y', c)} :: Inside(x', y') && 0 <= c < bpp ==>
        Channel(x', y', c) == if bit && x' == x && y' == y && c < 3 then 255 else old(Channel(x', y', c))
    {
      hide Lerp, ValidRounding;
      InkColors(0);
      InkColors(1);
      InkColors(2);
      InkColors(3);
      if bit {
        PutPixel(x, y, FOREGROUND);
      } else {
        PutPixel(x, y, BACKGROUND);
      }
    }

    /** Draws an eight by eight glyph: its pixels turn to the foreground, the others stay. */
    method DrawChar(c: nat, x: nat, y: nat)
      requires Shape() && c != 128 && Inside(x + 7, y + 7)
      modifies fb
      ensures forall x', y', k {:trigger Channel(x', y', k)} :: Inside(x', y') && 0 <= k < bpp ==>
        Channel(x', y', k)
        == if k < 3 && x <= x' < x + 8 && y <= y' < y + 8
              && c < 128 && font[c][y' - y] / Pow(2, x' - x) % 2 == 1 then 255
           else old(Channel(x', y', k))
    {
      if c > 128 {
        return;
      }
      var j, k := x, y;
      var gy := 0;
      while gy < 8
        invariant 0 <= gy <= 8 && j == x && k == y + gy
        invariant forall x', y', h {:trigger Channel(x', y', h)} :: Inside(x', y') && 0 <= h < bpp ==>
          Channel(x', y', h)
          == if h < 3 && x <= x' < x + 8 && y <= y' < y + gy && GlyphBit(font, c, x' - x, y' - y) then 255
             else old(Channel(x', y', h))
      {
        DrawRow(c, x, y, gy);
        k := k + 1;
        j := x;
        gy := gy + 1;
      }
      hide GlyphBit;
      forall x', y', h {:trigger Channel(x', y', h)} | Inside(x', y') && 0 <= h < bpp
        ensures Channel(x', y', h)
                == if h < 3 && x <= x' < x + 8 && y <= y' < y + 8 && font[c][y' - y] / Pow(2, x' - x) % 2 == 1 then 255
                   else old(Channel(x', y', h))
      {
        if x <= x' < x + 8 && y <= y' < y + 8 {
          GlyphBitIs(font, c, x' - x, y' - y);
        }
      }
    }

    /** One row of a glyph, from left to right. */
    method DrawRow(c: nat, x: nat, y: nat, gy: nat)
      requires Shape() && c < 128 && gy < 8 && Inside(x + 7, y + gy)
      modifies fb
      ensures forall x', y', k {:trigger Channel(x', y', k)} :: Inside(x', y') && 0 <= k < bpp ==>
        Channel(x', y', k)
        == if k < 3 && x <= x' < x + 8 && y' == y + gy && GlyphBit(font, c, x' - x, gy) then 255
           else old(Channel(x', y', k))
    {
      var bmask := font[c][gy];
      var gx, j := 0, x;
      while gx < 8
        invariant 0 <= gx <= 8 && j == x + gx
        invariant forall x', y', k {:trigger Channel(x', y', k)} :: Inside(x', y') && 0 <= k < bpp ==>
          Channel(x', y', k)
          == if k < 3 && x <= x' < x + gx && y' == y + gy && GlyphBit(font, c, x' - x, gy) then 255
             else old(Channel(x', y', k))
      {
        InkPixel(j, y + gy, Bit(bmask, gx));
        j := j + 1;
        gx := gx + 1;
      }
    }

    /** Copies the three colours of one pixel. */
    method CopyPixel(i: nat, offset: nat)
      requires i + offset + 3 <= fb.Length
      modifies fb
      ensures forall j :: 0 <= j < fb.Length ==> fb[j] == old(fb[if i <= j < i + 3 then j + offset else j])
    {
      fb[i] := fb[i + offset];
      fb[i + 1] := fb[i + offset + 1];
      fb[i + 2] := fb[i + offset + 2];
    }

    /** The forward copy of an overlapping stretch, three bytes of every pixel. */
    method CopyUp(offset: nat, length: nat)
      requires (bpp == 3 || bpp == 4) && ChannelOf(length, bpp) == 0 && offset + length == fb.Length
      modifies fb
      ensures forall j :: 0 <= j < fb.Length ==>
        fb[j] == if j < length && ChannelOf(j, bpp) < 3 then old(fb[j + offset]) else old(fb[j])
    {
      var i := 0;
      while i < length
        invariant 0 <= i <= length && ChannelOf(i, bpp) == 0
        invariant forall j :: 0 <= j < fb.Length ==>
          fb[j] == if j < i && ChannelOf(j, bpp) < 3 then old(fb[j + offset]) else old(fb[j])
      {
        ChannelGap(i, length, bpp);
        PixelChannels(i, bpp);
        CopyPixel(i, offset);
        i := i + bpp;
      }
    }

    method ClearFrom(length: nat)
      requires length <= fb.Length && (fb.Length - length) % 3 == 0
      modifies fb
      ensures forall j :: 0 <= j < fb.Length ==> fb[j] == if j >= length then 0 else old(fb[j])
    {
      var i: nat := length;
      while i < fb.Length
        invariant length <= i <= fb.Length && (fb.Length - i) % 3 == 0
        invariant forall j :: 0 <= j < fb.Length ==> fb[j] == if length <= j < i then 0 else old(fb[j])
      {
        fb[i] := 0;
        fb[i + 1] := 0;
        fb[i + 2] := 0;
        i := i + 3;
      }
    }

    method MoveBytes(offset: nat, length: nat)
      requires (bpp == 3 || bpp == 4) && ChannelOf(length, bpp) == 0
      requires offset + length == fb.Length && offset % 3 == 0
      modifies fb
      ensures Moved(old(fb[..]), fb[..], offset, length, bpp)
    {
      CopyUp(offset, length);
      ClearFrom(length);
    }

    /** How far the text moves, and how many bytes move. */
    method ScrollBounds() returns (offset: nat, length: nat)
      requires Shape()
      ensures offset == Offset(width, bpp, 0, 9) && length == Offset(width, bpp, 0, height - 9)
      ensures offset + length == fb.Length && offset % 3 == 0 && ChannelOf(length, bpp) == 0
    {
      NineRows(width, bpp);
      SizeIs(width, height, bpp);
      RowsSplit(width, height, bpp, 0, 0);
      OffsetChannel(width, bpp, 0, height - 9, 0);
      offset := width * bpp * 9;
      length := width * height * bpp - offset;
    }

    /** Moves everything up by nine pixel rows and clears the last nine. */
    method ShiftUp()
      requires Shape()
      modifies fb
      ensures forall x, y, c {:trigger Channel(x, y, c)} :: Inside(x, y) && 0 <= c < bpp ==>
        Channel(x, y, c)
        == if y >= height - 9 then 0 else if c < 3 then old(Channel(x, y + 9, c)) else old(Channel(x, y, c))
    {
      hide Moved;
      ghost var before := fb[..];
      var offset, length := ScrollBounds();
      MoveBytes(offset, length);
      forall x, y, c {:trigger Channel(x, y, c)} | Inside(x, y) && 0 <= c < bpp
        ensures Channel(x, y, c)
                == if y >= height - 9 then 0 else if c < 3 then old(Channel(x, y + 9, c)) else old(Channel(x, y, c))
      {
        MovedChannel(before, x, y, c);
      }
    }

    /** One channel after the bytes have been moved. */
    lemma MovedChannel(before: seq<Byte>, x: nat, y: nat, c: nat)
      requires Shape() && Inside(x, y) && c < bpp && |before| == fb.Length
      requires fb.Length == Offset(width, bpp, 0, 9) + Offset(width, bpp, 0, height - 9)
      requires Moved(before, fb[..], Offset(width, bpp, 0, 9), Offset(width, bpp, 0, height - 9), bpp)
      ensures Offset(width, bpp, x, y) + bpp <= |before|
      ensures y < height - 9 ==> Offset(width, bpp, x, y + 9) + bpp <= |before|
      ensures Channel(x, y, c)
              == if y >= height - 9 then 0
                 else if c < 3 then before[Offset(width, bpp, x, y + 9) + c] else before[Offset(width, bpp, x, y) + c]
    {
      hide Moved;
      var after := fb[..];
      MovedByte(before, after, width, height, bpp, x, y, c);
      assert fb[Offset(width, bpp, x, y) + c] == after[Offset(width, bpp, x, y) + c];
    }

    // ----- text

    /** The pixels are those of a sheet from line `top` on; the unused fourth byte stays zero. */
    ghost predicate Displays(s: Sheet, top: nat)
      requires Shape()
      reads fb
    {
      forall x, y, c {:trigger Channel(x, y, c)} :: Inside(x, y) && 0 <= c < bpp ==>
        Channel(x, y, c) == if c < 3 && Lit(s, font, x, y + top * LINE_HEIGHT) then 255 else 0
    }

    /** The cursor is the sheet's, seen from line `top`. */
    ghost predicate Follows(s: Sheet, top: nat)
      reads this
    {
      csrX == s.col && top <= s.row && csrY == s.row - top
    }

    /** The screen is the window that ends with the cursor's line, or starts with the first line. */
    ghost predicate Valid()
      reads this, fb
    {
      && Shape() && Bounded(sheet, Cols())
      && Follows(sheet, Top(sheet, Lines())) && Displays(sheet, Top(sheet, Lines()))
    }

    /** If the cursor has left the last line, moves the text up by one line. */
    method Scroll(ghost top: nat)
      requires Shape() && Displays(sheet, top) && Follows(sheet, top)
      requires csrY <= Lines() && top == Max(0, sheet.row - Lines() + (if csrY == Lines() then 0 else 1))
      requires forall m :: m in sheet.marks ==> m.row <= sheet.row && (csrY == Lines() ==> m.row < sheet.row)
      modifies fb, `csrY
      ensures Follows(sheet, Top(sheet, Lines())) && Displays(sheet, Top(sheet, Lines()))
    {
      hide Lit;
      if csrY < height / 9 {
        return;
      }
      csrY := csrY - 1;
      ShiftUp();
      forall x, y, c {:trigger Channel(x, y, c)} | Inside(x, y) && 0 <= c < bpp
        ensures Channel(x, y, c) == if c < 3 && Lit(sheet, font, x, y + (top + 1) * LINE_HEIGHT) then 255 else 0
      {
        if y >= height - 9 {
          DarkBelow(sheet, font, x, y + (top + 1) * LINE_HEIGHT, sheet.row);
        }
      }
    }

    /** Draws a printable character at the cursor and advances. */
    method Print(c: nat, ghost top: nat)
      requires Shape() && Displays(sheet, top) && Follows(sheet, top)
      requires 0x20 <= c < 0x80 && csrX < Cols() && csrY < Lines()
      modifies fb, `csrX, `sheet
      ensures sheet == Strike(old(sheet), c) && Follows(sheet, top) && Displays(sheet, top)
    {
      ghost var s := sheet;
      ghost var left, line := csrX * 8, csrY * 9 + 1;
      DrawChar(c, csrX * 8, csrY * 9 + 1);
      csrX := csrX + 1;
      sheet := Strike(s, c);
      forall x, y, k {:trigger Channel(x, y, k)} | Inside(x, y) && 0 <= k < bpp
        ensures Channel(x, y, k) == if k < 3 && Lit(sheet, font, x, y + top * LINE_HEIGHT) then 255 else 0
      {
        if left <= x < left + 8 && line <= y < line + 8 {
          GlyphBitIs(font, c, x - left, y - line);
        }
        MarkAddsGlyph(s, c, font, x, y + top * LINE_HEIGHT);
        LitMarks(sheet, s.(marks := sheet.marks), font, x, y + top * LINE_HEIGHT);
      }
    }

    /** The effect of one character before the edges of the screen are looked at. */
    method StrikeKey(c: int, ghost top: nat)
      requires Valid() && -0x80 <= c < 0x80 && top == Top(sheet, Lines())
      modifies fb, `csrX, `csrY, `sheet
      ensures sheet == Strike(old(sheet), c) && Follows(sheet, top) && Displays(sheet, top)
      decreases if c == 0x08 then 2 else 0, 0
    {
      if c == 0x08 {
        Backspace();
        return;
      }
      if c >= 0x20 {
        Print(c, top);
        return;
      }
      ghost var start := sheet;
      if c == 0x09 {
        csrX := (csrX + 8) - (csrX + 8) % 8;
      } else if c == 0x0D {
        csrX := 0;
      } else if c == 0x0A {
        csrX := 0;
        csrY := csrY + 1;
      }
      sheet := Strike(start, c);
      SameMarks(start, top);
    }

    /** Puts one signed character: types it on the sheet and keeps the window on the cursor. */
    method PutChar(c: int)
      requires Valid() && -0x80 <= c < 0x80
      modifies fb, `csrX, `csrY, `sheet
      ensures Valid() && sheet == Type(old(sheet), c, Cols())
      ensures csrX < Cols() && csrY < Lines()
      decreases if c == 0x08 then 3 else 0, 1
    {
      ghost var top := Top(sheet, Lines());
      TypeBounded(sheet, c, Cols());
      StrikeKey(c, top);
      ghost var struck := sheet;
      if csrX >= width / 8 {
        csrX := 0;
        csrY := csrY + 1;
      }
      sheet := Wrap(sheet, Cols());
      SameMarks(struck, top);
      Scroll(top);
    }

    /** Moves back, types a space, and moves back again; the space leaves no ink. */
    method Backspace()
      requires Valid()
      modifies fb, `csrX, `csrY, `sheet
      ensures sheet == Strike(old(sheet), 0x08) && Valid()
      ensures csrX == Max(old(csrX) - 1, 0) && csrY == old(csrY)
      decreases 1
    {
      hide Lit, Strike, Type, ValidRounding, Displays;
      ghost var start := sheet;
      ghost var top := Top(sheet, Lines());
      StrikeBack(start);
      if csrX != 0 {
        csrX := csrX - 1;
      }
      sheet := Strike(start, 0x08);
      ghost var back := sheet;
      SameMarks(start, top);
      TypeSpace(back, Cols());
      PutChar(0x20);
      csrX := Decrement(csrX);
      SpaceLeavesNoInk(sheet, back, top);
      sheet := back;
    }

    lemma SpaceLeavesNoInk(spaced: Sheet, s: Sheet, top: nat)
      requires Shape() && Displays(spaced, top) && spaced.marks == s.marks + {Mark(s.row, s.col, 0x20)}
      ensures Displays(s, top)
    {
      forall x, y, k {:trigger Channel(x, y, k)} | Inside(x, y) && 0 <= k < bpp
        ensures Channel(x, y, k) == if k < 3 && Lit(s, font, x, y + top * LINE_HEIGHT) then 255 else 0
      {
        SpaceIsInvisible(s, Mark(s.row, s.col, 0x20), font, x, y + top * LINE_HEIGHT);
        LitMarks(spaced, s.(marks := spaced.marks), font, x, y + top * LINE_HEIGHT);
      }
    }

    /** Moving the cursor does not change what is displayed. */
    lemma SameMarks(s: Sheet, top: nat)
      requires Shape() && Displays(s, top) && s.marks == sheet.marks
      ensures Displays(sheet, top)
    {
      forall x, y, k {:trigger Channel(x, y, k)} | Inside(x, y) && 0 <= k < bpp
        ensures Channel(x, y, k) == if k < 3 && Lit(sheet, font, x, y + top * LINE_HEIGHT) then 255 else 0
      {
        LitMarks(s, sheet, font, x, y + top * LINE_HEIGHT);
      }
    }

    /** Puts a whole text; the screen shows the window of the sheet typed so far. */
    method PutAll(text: seq<int>)
      requires Valid() && forall i :: 0 <= i < |text| ==> -0x80 <= text[i] < 0x80
      modifies fb, `csrX, `csrY, `sheet
      ensures Valid() && sheet == TypeAll(old(sheet), text, Cols())
    {
      ghost var start := sheet;
      var i := 0;
      while i < |text|
        invariant 0 <= i <= |text| && Valid() && sheet == TypeAll(start, text[..i], Cols())
      {
        PutChar(text[i]);
        assert text[..i + 1][..i] == text[..i];
        i := i + 1;
      }
      assert text[..|text|] == text;
    }

    /** One channel of a screen that shows a plain text. */
    lemma PlainChannel(text: seq<int>, x: nat, y: nat, c: nat)
      requires Valid() && Plain(text) && sheet == TypeAll(BLANK, text, Cols()) && Inside(x, y) && c < bpp
      ensures Channel(x, y, c) == if c < 3 && PlainPixel(text, font, width / 8, height / 9, x, y) then 255 else 0
    {
      hide TypeAll, GlyphBit, Follows, Bounded, Lit, Pow;
      PlainTextLayout(text, Cols());
      var top := if |text| / (width / 8) < height / 9 then 0 else |text| / (width / 8) - height / 9 + 1;
      PlainTextPixels(text, Cols(), font, x, y + top * LINE_HEIGHT);
      WindowCell(y, top);
    }

    method ClearScreen()
      requires Shape()
      modifies fb
      ensures forall i :: 0 <= i < fb.Length ==> fb[i] == 0
    {
      var i := 0;
      while i < fb.Length
        invariant 0 <= i <= fb.Length && forall j :: 0 <= j < i ==> fb[j] == 0
      {
        fb[i] := 0;
        i := i + 1;
      }
    }

    /** Takes over a framebuffer with any contents and shows a blank sheet. */
    constructor (width: nat, height: nat, bpp: nat, font: Font, rounding: Rounding, fb: array<Byte>)
      requires 16 <= width < 0x1_0000 && 9 <= height < 0x1_0000 && (bpp == 3 || bpp == 4) && ValidFont(font)
      requires ValidRounding(rounding) && fb.Length == Size(width, height, bpp) < 0x8000_0000
      modifies fb
      ensures Valid() && sheet == BLANK && this.fb == fb
      ensures this.width == width && this.height == height && this.bpp == bpp && this.font == font
    {
      this.width, this.height, this.bpp, this.font, this.rounding, this.fb := width, height, bpp, font, rounding, fb;
      csrX, csrY := 0, 0;
      sheet := BLANK;
      new;
      ClearScreen();
      BlankScreen();
    }

    lemma BlankScreen()
      requires Shape() && forall i :: 0 <= i < fb.Length ==> fb[i] == 0
      ensures Displays(BLANK, 0)
    {
      forall x, y, c {:trigger Channel(x, y, c)} | Inside(x, y) && 0 <= c < bpp
        ensures Channel(x, y, c) == if c < 3 && Lit(BLANK, font, x, y + 0 * LINE_HEIGHT) then 255 else 0
      {
        OffsetInside(width, height, bpp, x, y);
      }
    }

    // ----- rectangles

    /** Blends a colour over every pixel of a rectangle, each once, and nothing else. */
    method FillRect(x: nat, y: nat, w: nat, h: nat, color: Word)
      requires Shape() && x + w <= width && y + h <= height
      modifies fb
      ensures forall x', y', c {:trigger Channel(x', y', c)} :: Inside(x', y') && 0 <= c < bpp ==>
        Channel(x', y', c)
        == if x <= x' < x + w && y <= y' < y + h && c < 3
           then Lerp(old(Channel(x', y', c)), ColorByte(color, c), ColorByte(color, 3), rounding)
           else old(Channel(x', y', c))
    {
      hide Lerp, ValidRounding;
      var where := x * bpp + y * width * bpp;
      var step := width * bpp - w * bpp;
      RectStart(width, bpp, x, y);
      RectStep(width, bpp, x, y, w);
      var yy := 0;
      while yy < h
        invariant 0 <= yy <= h && where == Offset(width, bpp, x, y + yy)
        invariant forall x', y', c {:trigger Channel(x', y', c)} :: Inside(x', y') && 0 <= c < bpp ==>
          Channel(x', y', c)
          == if x <= x' < x + w && y <= y' < y + yy && c < 3
             then Lerp(old(Channel(x', y', c)), ColorByte(color, c), ColorByte(color, 3), rounding)
             else old(Channel(x', y', c))
      {
        where := FillRow(x, y + yy, w, color, where);
        RectStep(width, bpp, x, y + yy, w);
        where := where + step;
        yy := yy + 1;
      }
    }

    method FillRow(x: nat, y: nat, w: nat, color: Word, start: nat) returns (where: nat)
      requires Shape() && x + w <= width && y < height && start == Offset(width, bpp, x, y)
      modifies fb
      ensures where == Offset(width, bpp, x + w, y)
      ensures forall x', y', c {:trigger Channel(x', y', c)} :: Inside(x', y') && 0 <= c < bpp ==>
        Channel(x', y', c)
        == if x <= x' < x + w && y' == y && c < 3
           then Lerp(old(Channel(x', y', c)), ColorByte(color, c), ColorByte(color, 3), rounding)
           else old(Channel(x', y', c))
    {
      hide Lerp, ValidRounding;
      where := start;
      var xx := 0;
      while xx < w
        invariant 0 <= xx <= w && where == Offset(width, bpp, x + xx, y)
        invariant forall x', y', c {:trigger Channel(x', y', c)} :: Inside(x', y') && 0 <= c < bpp ==>
          Channel(x', y', c)
          == if x <= x' < x + xx && y' == y && c < 3
             then Lerp(old(Channel(x', y', c)), ColorByte(color, c), ColorByte(color, 3), rounding)
             else old(Channel(x', y', c))
      {
        BlendAt(where, x + xx, y, color);
        PixelStep(width, bpp, x + xx, y);
        where := where + bpp;
        xx := xx + 1;
      }
    }
  }

  /** From a framebuffer with any contents to the text on the screen: a channel is 255 exactly for
      a glyph bit of the character whose cell the pixel lies in, after all the scrolling. */
  method ShowPlain(width: nat, height: nat, bpp: nat, font: Font, rounding: Rounding, fb: array<Byte>, text: seq<int>)
    returns (screen: Screen)
    requires 16 <= width < 0x1_0000 && 9 <= height < 0x1_0000 && (bpp == 3 || bpp == 4) && ValidFont(font)
    requires ValidRounding(rounding) && fb.Length == Size(width, height, bpp) < 0x8000_0000
    requires Plain(text)
    modifies fb
    ensures fresh(screen) && screen.Valid() && screen.fb == fb
    ensures screen.width == width && screen.height == height && screen.bpp == bpp
    ensures forall x: nat, y: nat, c: nat {:trigger screen.Channel(x, y, c)} :: x < width && y < height && c < bpp ==>
      screen.Channel(x, y, c) == if c < 3 && PlainPixel(text, font, width / 8, height / 9, x, y) then 255 else 0
  {
    screen := new Screen(width, height, bpp, font, rounding, fb);
    screen.PutAll(text);
    hide Screen.Valid, TypeAll, PlainPixel;
    forall x: nat, y: nat, c: nat {:trigger screen.Channel(x, y, c)} | x < width && y < height && c < bpp
      ensures screen.Channel(x, y, c) == if c < 3 && PlainPixel(text, font, width / 8, height / 9, x, y) then 255 else 0
    {
      screen.PlainChannel(text, x, y, c);
    }
  }
}
