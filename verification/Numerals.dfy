/** Positional numerals, digit grouping, and a reader that undoes both. */
module Numerals {
  import opened Arithmetic
  import opened Machine

  const LOWER_DIGITS := "0123456789abcdef"
  const UPPER_DIGITS := "0123456789ABCDEF"

  function DigitChar(d: nat, upper: bool): char
    requires d < 16
  {
    if upper then UPPER_DIGITS[d] else LOWER_DIGITS[d]
  }

  /** The value of a digit character, or -1 for any other character. */
  function DigitValue(c: char): int {
    if '0' <= c <= '9' then c as int - '0' as int
    else if 'a' <= c <= 'f' then c as int - 'a' as int + 10
    else if 'A' <= c <= 'F' then c as int - 'A' as int + 10
    else -1
  }

  lemma DigitCharIsDigit(d: nat, upper: bool)
    requires d < 16
    ensures DigitValue(DigitChar(d, upper)) == d
  {
    var c := DigitChar(d, upper);
    if d < 10 {
      assert c == ['0', '1', '2', '3', '4', '5', '6', '7', '8', '9'][d];
    } else if upper {
      assert c == ['A', 'B', 'C', 'D', 'E', 'F'][d - 10];
    } else {
      assert c == ['a', 'b', 'c', 'd', 'e', 'f'][d - 10];
    }
  }

  predicate ValidBase(base: nat) {
    base == 8 || base == 10 || base == 16
  }

  /** Division by one of the three bases, kept linear for the verifier. */
  function Quotient(v: nat, base: nat): nat
    requires ValidBase(base)
  {
    if base == 8 then v / 8 else if base == 10 then v / 10 else v / 16
  }

  function Remainder(v: nat, base: nat): (r: nat)
    requires ValidBase(base)
    ensures r < base
  {
    if base == 8 then v % 8 else if base == 10 then v % 10 else v % 16
  }

  lemma QuotientIsDivision(v: nat, base: nat)
    requires ValidBase(base)
    ensures Quotient(v, base) == v / base && Remainder(v, base) == v % base
    ensures v == Quotient(v, base) * base + Remainder(v, base)
  {
  }

  function Pow(base: nat, n: nat): (r: nat)
    ensures base > 0 ==> r > 0
  {
    if n == 0 then 1 else Pow(base, n - 1) * base
  }

  lemma PowEight()
    ensures Pow(16, 8) == TWO_32
  {
    assert Pow(16, 2) == 256 && Pow(16, 4) == Pow(16, 3) * 16 && Pow(16, 3) == 4096;
    assert Pow(16, 6) == Pow(16, 5) * 16 && Pow(16, 5) == 0x10_0000;
    assert Pow(16, 8) == Pow(16, 7) * 16 && Pow(16, 7) == Pow(16, 6) * 16;
  }

  lemma {:induction false} PowMonotone(base: nat, k: nat, d: nat)
    requires base > 0 && k <= d
    ensures Pow(base, k) <= Pow(base, d)
  {
    if k < d {
      PowMonotone(base, k, d - 1);
      TimesMonotone(1, base, Pow(base, d - 1));
    }
  }

  /** The numeral of v without leading zeros; zero has the empty numeral. */
  function Numeral(v: nat, base: nat, upper: bool): string
    requires ValidBase(base)
  {
    if v == 0 then "" else Numeral(Quotient(v, base), base, upper) + [DigitChar(Remainder(v, base), upper)]
  }

  /** The lowest d digits of v, padded with zeros on the left. */
  function Digits(v: nat, base: nat, upper: bool, d: nat): (s: string)
    requires ValidBase(base)
    ensures |s| == d
    decreases d
  {
    if d == 0 then "" else Digits(Quotient(v, base), base, upper, d - 1) + [DigitChar(Remainder(v, base), upper)]
  }

  lemma {:induction false} ZeroDigits(base: nat, upper: bool, d: nat)
    requires ValidBase(base)
    ensures Digits(0, base, upper, d) == Fill('0', d)
  {
    if d > 0 {
      ZeroDigits(base, upper, d - 1);
    }
  }

  lemma {:induction false} DigitsArePaddedNumeral(v: nat, base: nat, upper: bool, d: nat)
    requires ValidBase(base) && |Numeral(v, base, upper)| <= d
    ensures Digits(v, base, upper, d) == Fill('0', d - |Numeral(v, base, upper)|) + Numeral(v, base, upper)
    decreases d
  {
    if v == 0 {
      ZeroDigits(base, upper, d);
      assert Fill('0', d) + "" == Fill('0', d);
    } else {
      hide Quotient, Remainder, DigitChar;
      var rest, c := Quotient(v, base), [DigitChar(Remainder(v, base), upper)];
      DigitsArePaddedNumeral(rest, base, upper, d - 1);
      var numeral := Numeral(rest, base, upper);
      AppendAssoc(Fill('0', d - 1 - |numeral|), numeral, c);
    }
  }

  /** ds with '_' between groups of k characters, counted from the right. */
  function Grouped(ds: string, k: nat): string
    requires k > 0
  {
    if |ds| <= k then ds else Grouped(ds[..|ds| - k], k) + "_" + ds[|ds| - k..]
  }

  /** ds with '_' between groups, where the rightmost group has only b characters. */
  function GroupedShort(ds: string, k: nat, b: nat): string
    requires k > 0
  {
    if |ds| <= b then ds else Grouped(ds[..|ds| - b], k) + "_" + ds[|ds| - b..]
  }

  /** One step of a right-to-left traversal of grouped digits, inside a group. */
  lemma GroupedShortInside(ds: string, k: nat, b: nat)
    requires k > 0 && |ds| > 0 && b > 0
    ensures GroupedShort(ds, k, b) == GroupedShort(ds[..|ds| - 1], k, b - 1) + [ds[|ds| - 1]]
  {
    hide Grouped;
    var init := ds[..|ds| - 1];
    if |ds| > b {
      assert init[..|init| - (b - 1)] == ds[..|ds| - b];
      assert ds[|ds| - b..] == init[|init| - (b - 1)..] + [ds[|ds| - 1]];
    } else {
      assert ds == init + [ds[|ds| - 1]];
    }
  }

  /** One step of a right-to-left traversal of grouped digits, at the end of a group. */
  lemma GroupedShortBoundary(ds: string, k: nat)
    requires k > 0 && |ds| > 0
    ensures GroupedShort(ds, k, 0) == GroupedShort(ds, k, k) + "_"
  {
    assert ds[..|ds|] == ds && ds[|ds|..] == "";
  }

  lemma {:induction false} GroupedLength(ds: string, k: nat)
    requires k > 0 && |ds| > 0
    ensures |Grouped(ds, k)| == |ds| + (|ds| - 1) / k
  {
    if |ds| > k {
      GroupedLength(ds[..|ds| - k], k);
      DivStep(|ds| - 1, k);
    } else {
      DivSmall(|ds| - 1, k);
    }
  }

  /** How many ticks d digits get. */
  method AddTicks(d: nat, k: nat, ghost ds: string) returns (cells: nat)
    requires k > 0 && d > 0 && |ds| == d
    ensures cells == |Grouped(ds, k)|
  {
    GroupedLength(ds, k);
    cells := d + (d - 1) / k;
  }

  /** Exactly the cells at distance k, 2k+1, 3k+2, ... from the right hold a tick. */
  lemma {:induction false} TickPositions(ds: string, k: nat, p: nat)
    requires k > 0 && '_' !in ds && p < |Grouped(ds, k)|
    ensures Grouped(ds, k)[|Grouped(ds, k)| - 1 - p] == '_' <==> p % (k + 1) == k
  {
    if |ds| <= k || p <= k {
      DivSmall(p, k + 1);
    } else {
      TickPositions(ds[..|ds| - k], k, p - (k + 1));
      DivStep(p, k + 1);
    }
  }

  lemma {:induction false} GroupedChars(ds: string, k: nat)
    requires k > 0
    ensures forall i :: 0 <= i < |Grouped(ds, k)| ==> Grouped(ds, k)[i] == '_' || Grouped(ds, k)[i] in ds
    ensures ds != "" ==> Grouped(ds, k) != "" && Grouped(ds, k)[0] == ds[0]
  {
    if |ds| > k {
      GroupedChars(ds[..|ds| - k], k);
    }
  }

  lemma {:induction false} DigitsChars(v: nat, base: nat, upper: bool, d: nat)
    requires ValidBase(base)
    ensures forall i :: 0 <= i < d ==> DigitValue(Digits(v, base, upper, d)[i]) >= 0
    decreases d
  {
    if d > 0 {
      DigitsChars(Quotient(v, base), base, upper, d - 1);
      DigitCharIsDigit(Remainder(v, base), upper);
    }
  }

  // ----- reading back

  /** The value of the digits of s in the given base; all other characters are skipped. */
  function Read(s: string, base: nat): nat {
    if s == "" then 0
    else
      var c := s[|s| - 1];
      var head := Read(s[..|s| - 1], base);
      if DigitValue(c) < 0 then head else head * base + DigitValue(c)
  }

  function DigitsIn(s: string): nat {
    if s == "" then 0 else DigitsIn(s[..|s| - 1]) + if DigitValue(s[|s| - 1]) < 0 then 0 else 1
  }

  lemma {:induction false} ReadConcat(a: string, b: string, base: nat)
    ensures Read(a + b, base) == Read(a, base) * Pow(base, DigitsIn(b)) + Read(b, base)
    ensures DigitsIn(a + b) == DigitsIn(a) + DigitsIn(b)
  {
    if b == "" {
      assert a + b == a;
    } else {
      var init, c := b[..|b| - 1], b[|b| - 1];
      assert (a + b)[..|a + b| - 1] == a + init && (a + b)[|a + b| - 1] == c;
      ReadConcat(a, init, base);
      if DigitValue(c) >= 0 {
        ReadStep(Read(a, base), Pow(base, DigitsIn(init)), base, Read(init, base), DigitValue(c));
      }
    }
  }

  lemma ReadStep(a: nat, p: nat, base: nat, b: nat, d: nat)
    ensures (a * p + b) * base + d == a * (p * base) + (b * base + d)
  {
  }

  lemma {:induction false} ReadNumeral(v: nat, base: nat, upper: bool)
    requires ValidBase(base)
    ensures Read(Numeral(v, base, upper), base) == v
    ensures DigitsIn(Numeral(v, base, upper)) == |Numeral(v, base, upper)|
    ensures forall i :: 0 <= i < |Numeral(v, base, upper)| ==> DigitValue(Numeral(v, base, upper)[i]) >= 0
  {
    if v > 0 {
      ReadNumeral(Quotient(v, base), base, upper);
      DigitCharIsDigit(Remainder(v, base), upper);
      QuotientIsDivision(v, base);
      var s := Numeral(v, base, upper);
      assert s[..|s| - 1] == Numeral(Quotient(v, base), base, upper);
    }
  }

  lemma {:induction false} ReadFill(c: char, n: int, base: nat)
    requires DigitValue(c) <= 0
    ensures Read(Fill(c, n), base) == 0
    ensures DigitsIn(Fill(c, n)) == if DigitValue(c) == 0 then Max(n, 0) else 0
    decreases n
  {
    if n > 0 {
      assert Fill(c, n)[..n - 1] == Fill(c, n - 1);
      ReadFill(c, n - 1, base);
    }
  }

  /** Ticks are invisible to the reader. */
  lemma {:induction false} ReadGrouped(ds: string, k: nat, base: nat)
    requires k > 0
    ensures Read(Grouped(ds, k), base) == Read(ds, base) && DigitsIn(Grouped(ds, k)) == DigitsIn(ds)
  {
    if |ds| > k {
      var head, tail := ds[..|ds| - k], ds[|ds| - k..];
      ReadGrouped(head, k, base);
      var g := Grouped(head, k) + "_";
      assert g[..|g| - 1] == Grouped(head, k);
      ReadConcat(g, tail, base);
      ReadConcat(head, tail, base);
      assert ds == head + tail;
    }
  }

  /** A numeral has the least number of digits that can hold its value. */
  lemma {:induction false} NumeralSize(v: nat, base: nat, upper: bool)
    requires ValidBase(base)
    ensures var d := |Numeral(v, base, upper)|; v < Pow(base, d) && (d > 0 ==> Pow(base, d - 1) <= v)
  {
    if v > 0 {
      var q, d := Quotient(v, base), |Numeral(v, base, upper)|;
      NumeralSize(q, base, upper);
      QuotientIsDivision(v, base);
      TimesMonotone(q + 1, Pow(base, d - 1), base);
      if d > 1 {
        TimesMonotone(Pow(base, d - 2), q, base);
      }
    }
  }

  /** The digits of a base, in lower or upper case. */
  lemma DigitTable(d: nat, base: nat, upper: bool)
    requires ValidBase(base) && d < base
    ensures var digits := if base == 8 then "01234567" else if base == 10 then "0123456789"
                          else if upper then "0123456789ABCDEF" else "0123456789abcdef";
            |digits| == base && DigitChar(d, upper) == digits[d]
  {
  }

  /** Every character of a numeral is a digit of its base, in the case asked for. */
  lemma {:induction false} NumeralChars(v: nat, base: nat, upper: bool, i: nat)
    requires ValidBase(base) && i < |Numeral(v, base, upper)|
    ensures Numeral(v, base, upper)[i] in (if base == 8 then "01234567" else if base == 10 then "0123456789"
                                           else if upper then "0123456789ABCDEF" else "0123456789abcdef")
  {
    if i < |Numeral(v, base, upper)| - 1 {
      NumeralChars(Quotient(v, base), base, upper, i);
    } else {
      DigitTable(Remainder(v, base), base, upper);
    }
  }

  lemma {:induction false} NumeralBound(v: nat, base: nat, upper: bool, n: nat)
    requires ValidBase(base) && v < Pow(base, n)
    ensures |Numeral(v, base, upper)| <= n
    decreases n
  {
    if v > 0 {
      if Quotient(v, base) >= Pow(base, n - 1) {
        QuotientIsDivision(v, base);
        TimesMonotone(Pow(base, n - 1), Quotient(v, base), base);
        assert false;
      }
      NumeralBound(Quotient(v, base), base, upper, n - 1);
    }
  }
}
