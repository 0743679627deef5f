/** Where the bytes of a pixel lie in a framebuffer of w pixels a row and b bytes a pixel. */
module Geometry {
  import opened Arithmetic

  /** The product, as a copies of b: products of unknowns stay out of the verifier's sight. */
  function Times(a: nat, b: nat): nat {
    if a == 0 then 0 else Times(a - 1, b) + b
  }

  lemma {:induction false} TimesIsProduct(a: nat, b: nat)
    ensures Times(a, b) == a * b
  {
    if a > 0 {
      TimesIsProduct(a - 1, b);
      assert a * b == (a - 1) * b + b;
    }
  }

  function Offset(w: nat, b: nat, x: nat, y: nat): nat {
    Times(x + Times(y, w), b)
  }

  function Size(w: nat, h: nat, b: nat): nat {
    Times(Times(w, h), b)
  }

  lemma OffsetIs(w: nat, b: nat, x: nat, y: nat)
    ensures Offset(w, b, x, y) == (x + y * w) * b
  {
    TimesIsProduct(y, w);
    TimesIsProduct(x + y * w, b);
  }

  lemma SizeIs(w: nat, h: nat, b: nat)
    ensures Size(w, h, b) == w * h * b
  {
    TimesIsProduct(w, h);
    TimesIsProduct(w * h, b);
  }

  /** Which channel of its pixel the byte i of a framebuffer is. */
  function ChannelOf(i: nat, b: nat): nat
    requires b > 0
  {
    if i < b then i else ChannelOf(i - b, b)
  }

  /** From the first byte of a pixel on, the channels count up and start again. */
  lemma {:induction false} ChannelRun(i: nat, b: nat, c: nat)
    requires c < b && ChannelOf(i, b) == 0
    ensures ChannelOf(i + c, b) == c && ChannelOf(i + b, b) == 0
  {
    if i >= b {
      ChannelRun(i - b, b, c);
    }
  }

  lemma PixelChannels(i: nat, b: nat)
    requires b > 0 && ChannelOf(i, b) == 0
    ensures ChannelOf(i + b, b) == 0
    ensures forall j :: i <= j < i + b ==> ChannelOf(j, b) == j - i
  {
    forall j | i <= j < i + b
      ensures ChannelOf(j, b) == j - i
    {
      ChannelRun(i, b, j - i);
    }
    ChannelRun(i, b, 0);
  }

  /** Pixels do not overlap: the next pixel starts b bytes further on, at the earliest. */
  lemma {:induction false} ChannelGap(i: nat, j: nat, b: nat)
    requires b > 0 && ChannelOf(i, b) == 0 && ChannelOf(j, b) == 0 && i < j
    ensures i + b <= j
  {
    if i >= b {
      ChannelGap(i - b, j - b, b);
    }
  }

  // ----- products

  lemma {:induction false} TimesAdd(a: nat, b: nat, c: nat)
    ensures Times(a + b, c) == Times(a, c) + Times(b, c)
  {
    if b > 0 {
      TimesAdd(a, b - 1, c);
    }
  }

  lemma TimesOrder(a: nat, b: nat, c: nat)
    requires a < b
    ensures Times(a, c) + c <= Times(b, c)
  {
    TimesAdd(a + 1, b - a - 1, c);
  }

  lemma TimesSwap(a: nat, b: nat)
    ensures Times(a, b) == Times(b, a)
  {
    TimesIsProduct(a, b);
    TimesIsProduct(b, a);
  }

  // ----- pixels

  lemma PixelOrder(w: nat, x: nat, y: nat, x': nat, y': nat)
    requires x < w && y < y'
    ensures x + Times(y, w) < x' + Times(y', w)
  {
    TimesOrder(y, y', w);
  }

  lemma SizeIsOffset(w: nat, h: nat, b: nat)
    ensures Size(w, h, b) == Offset(w, b, 0, h)
  {
    TimesSwap(w, h);
  }

  /** A pixel's bytes are inside the framebuffer. */
  lemma OffsetInside(w: nat, h: nat, b: nat, x: nat, y: nat)
    requires x < w && y < h
    ensures Offset(w, b, x, y) + b <= Size(w, h, b)
  {
    SizeIsOffset(w, h, b);
    PixelOrder(w, x, y, 0, h);
    TimesOrder(x + Times(y, w), Times(h, w), b);
  }

  /** Different pixels have disjoint bytes. */
  lemma OffsetsApart(w: nat, b: nat, x: nat, y: nat, x': nat, y': nat)
    requires x < w && x' < w && (x != x' || y != y')
    ensures Offset(w, b, x, y) + b <= Offset(w, b, x', y') || Offset(w, b, x', y') + b <= Offset(w, b, x, y)
  {
    if y < y' {
      PixelOrder(w, x, y, x', y');
    } else if y' < y {
      PixelOrder(w, x', y', x, y);
    }
    var p, p' := x + Times(y, w), x' + Times(y', w);
    if p < p' {
      TimesOrder(p, p', b);
    } else {
      TimesOrder(p', p, b);
    }
  }

  /** The bytes of the pixel k rows below are as far away as k rows are long. */
  lemma OffsetBelow(w: nat, b: nat, x: nat, y: nat, k: nat)
    ensures Offset(w, b, x, y + k) == Offset(w, b, x, y) + Offset(w, b, 0, k)
  {
    TimesAdd(y, k, w);
    TimesAdd(x + Times(y, w), Times(k, w), b);
  }

  lemma OffsetChannel(w: nat, b: nat, x: nat, y: nat, c: nat)
    requires c < b
    ensures ChannelOf(Offset(w, b, x, y) + c, b) == c
  {
    PixelStart(x + Times(y, w), b);
    ChannelRun(Offset(w, b, x, y), b, c);
  }

  lemma {:induction false} PixelStart(p: nat, b: nat)
    requires b > 0
    ensures ChannelOf(Times(p, b), b) == 0
  {
    if p > 0 {
      PixelStart(p - 1, b);
      ChannelRun(Times(p - 1, b), b, 0);
    }
  }

  /** The last nine rows start behind the bytes of all the pixels above them. */
  lemma RowsSplit(w: nat, h: nat, b: nat, x: nat, y: nat)
    requires x < w && y < h && h >= 9
    ensures Size(w, h, b) == Offset(w, b, 0, h - 9) + Offset(w, b, 0, 9)
    ensures y < h - 9 ==> Offset(w, b, x, y) + b <= Offset(w, b, 0, h - 9)
    ensures y >= h - 9 ==> Offset(w, b, x, y) >= Offset(w, b, 0, h - 9)
  {
    SizeIsOffset(w, h, b);
    OffsetBelow(w, b, 0, h - 9, 9);
    if y < h - 9 {
      OffsetInside(w, h - 9, b, x, y);
      SizeIsOffset(w, h - 9, b);
    } else {
      OffsetBelow(w, b, x, h - 9, y - (h - 9));
      TimesAdd(Times(h - 9, w), x, b);
    }
  }

  /** Where byte c of a pixel comes from when everything moves up by nine rows. */
  lemma ByteNineRowsUp(w: nat, h: nat, b: nat, x: nat, y: nat, c: nat)
    requires x < w && y < h && c < b && h >= 9
    ensures var i, length, offset := Offset(w, b, x, y) + c, Offset(w, b, 0, h - 9), Offset(w, b, 0, 9);
            && i < Size(w, h, b) == length + offset && ChannelOf(i, b) == c
            && (y < h - 9 ==> i < length && Offset(w, b, x, y + 9) + c == i + offset)
            && (y >= h - 9 ==> i >= length)
  {
    OffsetChannel(w, b, x, y, c);
    RowsSplit(w, h, b, x, y);
    OffsetBelow(w, b, x, y, 9);
    OffsetInside(w, h, b, x, y);
  }

  lemma NineRows(w: nat, b: nat)
    ensures Offset(w, b, 0, 9) == w * b * 9 && Offset(w, b, 0, 9) % 3 == 0
  {
    OffsetIs(w, b, 0, 9);
    NineTimes(9 * w, w, b);
    MultipleOfNine(w * b, Offset(w, b, 0, 9));
  }

  lemma NineTimes(n: nat, w: nat, b: nat)
    requires n == 9 * w
    ensures n * b == w * b * 9
  {
  }

  lemma MultipleOfNine(t: nat, n: nat)
    requires n == t * 9
    ensures n % 3 == 0
  {
    DivUnique(n, 3, 3 * t, 0);
  }

  lemma PixelStep(w: nat, b: nat, x: nat, y: nat)
    ensures Offset(w, b, x + 1, y) == Offset(w, b, x, y) + b
  {
  }

  lemma RectStart(w: nat, b: nat, x: nat, y: nat)
    ensures Offset(w, b, x, y) == x * b + y * w * b
  {
    OffsetIs(w, b, x, y);
  }

  /** The step from the end of a row of k pixels leads to the next row. */
  lemma RectStep(w: nat, b: nat, x: nat, y: nat, k: nat)
    requires k <= w
    ensures k * b <= w * b
    ensures Offset(w, b, x, y + 1) == Offset(w, b, x + k, y) + (w * b - k * b)
  {
    TimesAdd(x + Times(y, w), k, b);
    TimesAdd(x + Times(y, w) + k, w - k, b);
    TimesIsProduct(w, b);
    TimesIsProduct(k, b);
    TimesAdd(w - k, k, b);
  }

  /** Every byte of the framebuffer is a channel of a pixel. */
  lemma {:induction false} PixelOfByte(w: nat, h: nat, b: nat, i: nat) returns (x: nat, y: nat, c: nat)
    requires b > 0 && i < Size(w, h, b)
    ensures x < w && y < h && c < b && i == Offset(w, b, x, y) + c
  {
    var p;
    p, c := Share(Times(w, h), b, i);
    TimesSwap(w, h);
    y, x := Share(h, w, p);
  }

  /** A number below n copies of b lies in one of the copies. */
  lemma {:induction false} Share(n: nat, b: nat, i: nat) returns (q: nat, r: nat)
    requires i < Times(n, b)
    ensures q < n && r < b && i == Times(q, b) + r
  {
    if i < Times(n - 1, b) {
      q, r := Share(n - 1, b, i);
    } else {
      q, r := n - 1, i - Times(n - 1, b);
    }
  }
}
