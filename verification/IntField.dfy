/** What one integer conversion prints: the layout of the field, and reading it back. */
module IntField {
  import opened Machine
  import opened Numerals

  datatype Flags = Flags(
    zero: bool, minus: bool, plus: bool, tick: bool, space: bool, hash: bool, signed: bool, upper: bool)

  const NO_FLAGS := Flags(false, false, false, false, false, false, false, false)

  predicate IsNegative(val: Word, flags: Flags) {
    flags.signed && Signed32(val) < 0
  }

  function Magnitude(val: Word, flags: Flags): Word {
    if IsNegative(val, flags) then TWO_32 - val else val
  }

  /** The number a field stands for. */
  function NumericValue(val: Word, flags: Flags): int {
    if flags.signed then Signed32(val) else val
  }

  function TickDistance(base: nat): nat {
    if base == 16 then 4 else 3
  }

  /** The least number of digits asked for: the precision, or one leading zero for `#` in octal. */
  function LeastDigits(mag: Word, flags: Flags, base: nat, prec: int): int
    requires ValidBase(base)
  {
    if flags.hash && base == 8 then Max(prec, |Numeral(mag, base, flags.upper)| + 1) else prec
  }

  /** The digits: the numeral with leading zeros up to the precision, at least one digit. */
  function DigitText(mag: Word, flags: Flags, base: nat, prec: int): (s: string)
    requires ValidBase(base)
    ensures |s| >= 1
  {
    var numeral := Numeral(mag, base, flags.upper);
    var count := Max(LeastDigits(mag, flags, base, prec), Max(|numeral|, 1));
    Fill('0', count - |numeral|) + numeral
  }

  function Body(mag: Word, flags: Flags, base: nat, prec: int): string
    requires ValidBase(base)
  {
    var digits := DigitText(mag, flags, base, prec);
    if flags.tick then Grouped(digits, TickDistance(base)) else digits
  }

  function Sign(val: Word, flags: Flags): string {
    if IsNegative(val, flags) then "-" else if flags.plus then "+" else if flags.space then " " else ""
  }

  function Prefix(flags: Flags, base: nat): string {
    if flags.hash && base == 16 then (if flags.upper then "0X" else "0x") else ""
  }

  /** What comes before a body of m characters: blanks, sign, prefix and zeros. */
  function Lead(sign: string, prefix: string, m: nat, flags: Flags, width: int): string {
    var pad := width - |sign| - |prefix| - m;
    if flags.minus then sign + prefix
    else if flags.zero then sign + prefix + Fill('0', pad)
    else Fill(' ', pad) + sign + prefix
  }

  function Trail(sign: string, prefix: string, m: nat, flags: Flags, width: int): string {
    if flags.minus then Fill(' ', width - |sign| - |prefix| - m) else ""
  }

  /** A body padded to the width: on the right, with zeros after the prefix, or on the left. */
  function Layout(sign: string, prefix: string, body: string, flags: Flags, width: int): string {
    Lead(sign, prefix, |body|, flags, width) + body + Trail(sign, prefix, |body|, flags, width)
  }

  function Field(val: Word, flags: Flags, base: nat, width: int, prec: int): string
    requires ValidBase(base)
  {
    Layout(Sign(val, flags), Prefix(flags, base), Body(Magnitude(val, flags), flags, base, prec), flags, width)
  }

  // ----- layout

  lemma DigitCount(mag: Word, flags: Flags, base: nat, prec: int)
    requires ValidBase(base)
    ensures |DigitText(mag, flags, base, prec)|
            == Max(LeastDigits(mag, flags, base, prec), Max(|Numeral(mag, base, flags.upper)|, 1))
  {
  }

  lemma FieldMeasure(val: Word, flags: Flags, base: nat, width: int, prec: int)
    requires ValidBase(base)
    ensures var mag := Magnitude(val, flags);
            var d := |DigitText(mag, flags, base, prec)|;
            var ticks := if flags.tick then (d - 1) / TickDistance(base) else 0;
            |Field(val, flags, base, width, prec)|
            == Max(width, d + ticks + |Sign(val, flags)| + |Prefix(flags, base)|)
    ensures |DigitText(Magnitude(val, flags), flags, base, prec)|
            == Max(LeastDigits(Magnitude(val, flags), flags, base, prec),
                   Max(|Numeral(Magnitude(val, flags), base, flags.upper)|, 1))
  {
    DigitCount(Magnitude(val, flags), flags, base, prec);
    hide DigitText, Grouped, LeastDigits, Numeral, Magnitude;
    GroupedLength(DigitText(Magnitude(val, flags), flags, base, prec), TickDistance(base));
  }

  lemma PartsFit(val: Word, flags: Flags, base: nat, width: int, prec: int)
    requires ValidBase(base)
    ensures |Sign(val, flags)| + |Prefix(flags, base)| + |Body(Magnitude(val, flags), flags, base, prec)|
            <= |Field(val, flags, base, width, prec)|
  {
  }

  lemma TicksOnlyAdd(mag: Word, flags: Flags, base: nat, prec: int)
    requires ValidBase(base)
    ensures |DigitText(mag, flags, base, prec)| <= |Body(mag, flags, base, prec)|
  {
    GroupedLength(DigitText(mag, flags, base, prec), TickDistance(base));
  }

  lemma DigitTextChars(mag: Word, flags: Flags, base: nat, prec: int)
    requires ValidBase(base)
    ensures AllDigits(DigitText(mag, flags, base, prec))
    ensures Read(DigitText(mag, flags, base, prec), base) == mag
  {
    var text, numeral := DigitText(mag, flags, base, prec), Numeral(mag, base, flags.upper);
    var zeros := |text| - |numeral|;
    assert text == Fill('0', zeros) + numeral;
    ReadNumeral(mag, base, flags.upper);
    ZerosThenDigits(zeros, numeral, base);
  }

  predicate AllDigits(s: string) {
    forall i :: 0 <= i < |s| ==> DigitValue(s[i]) >= 0
  }

  lemma {:induction false} DigitsOnly(s: string)
    requires AllDigits(s)
    ensures DigitsIn(s) == |s|
  {
    if s != "" {
      DigitsOnly(s[..|s| - 1]);
    }
  }

  lemma ZerosThenDigits(zeros: int, s: string, base: nat)
    requires AllDigits(s)
    ensures AllDigits(Fill('0', zeros) + s) && Read(Fill('0', zeros) + s, base) == Read(s, base)
  {
    ReadPadded(zeros, s, 0, base);
  }

  /** Zeros in front and blanks behind do not change what is read. */
  lemma ReadPadded(zeros: int, body: string, blanks: int, base: nat)
    ensures Read(Fill('0', zeros) + body, base) == Read(body, base)
    ensures Read(Fill('0', zeros) + body + Fill(' ', blanks), base) == Read(body, base)
  {
    ReadFill('0', zeros, base);
    ReadFill(' ', blanks, base);
    ReadConcat(Fill('0', zeros), body, base);
    ReadConcat(Fill('0', zeros) + body, Fill(' ', blanks), base);
  }

  /** With ticks the body starts with a digit, and the ticks stand exactly between the groups. */
  lemma TicksInBody(mag: Word, flags: Flags, base: nat, prec: int, p: nat)
    requires ValidBase(base) && flags.tick && p < |Body(mag, flags, base, prec)|
    ensures var body, k := Body(mag, flags, base, prec), if base == 16 then 4 else 3;
            && body[0] != '_'
            && (body[|body| - 1 - p] == '_' <==> p % (k + 1) == k)
  {
    hide *;
    var digits, k := DigitText(mag, flags, base, prec), if base == 16 then 4 else 3;
    GroupedBody(mag, flags, base, prec);
    DigitTextChars(mag, flags, base, prec);
    NoTickIn(digits);
    TickPositions(digits, k, p);
    GroupedChars(digits, k);
  }

  lemma GroupedBody(mag: Word, flags: Flags, base: nat, prec: int)
    requires ValidBase(base) && flags.tick
    ensures Body(mag, flags, base, prec) == Grouped(DigitText(mag, flags, base, prec), if base == 16 then 4 else 3)
    ensures DigitText(mag, flags, base, prec) != ""
  {
  }

  lemma NoTickIn(digits: string)
    requires AllDigits(digits)
    ensures '_' !in digits
  {
    assert DigitValue('_') == -1;
  }

  /** The digits of a body, in their base and case, with as many of them as the precision asks for
      and the magnitude needs, at least one, and one more for `#` in octal. */
  lemma BodyShape(mag: Word, flags: Flags, base: nat, prec: int) returns (d: nat)
    requires ValidBase(base)
    ensures mag < Pow(base, d) && (d > 0 ==> Pow(base, d - 1) <= mag)
    ensures DigitsIn(Body(mag, flags, base, prec)) == Max(prec, Max(1, if flags.hash && base == 8 then d + 1 else d))
    ensures !flags.tick ==> DigitsIn(Body(mag, flags, base, prec)) == |Body(mag, flags, base, prec)|
    ensures var body := Body(mag, flags, base, prec);
            var digits := if base == 8 then "01234567" else if base == 10 then "0123456789"
                          else if flags.upper then "0123456789ABCDEF" else "0123456789abcdef";
            && Read(body, base) == mag
            && forall i :: 0 <= i < |body| ==> (body[i] == '_' && flags.tick) || body[i] in digits
  {
    hide Numeral, Read, Grouped, DigitsIn, DigitValue, Pow;
    d := |Numeral(mag, base, flags.upper)|;
    NumeralSize(mag, base, flags.upper);
    BodyReads(mag, flags, base, prec);
    DigitTextChars(mag, flags, base, prec);
    DigitsOnly(DigitText(mag, flags, base, prec));
    DigitTextTable(mag, flags, base, prec);
    DigitCount(mag, flags, base, prec);
    ReadGrouped(DigitText(mag, flags, base, prec), TickDistance(base), base);
    GroupedChars(DigitText(mag, flags, base, prec), TickDistance(base));
  }

  lemma DigitTextTable(mag: Word, flags: Flags, base: nat, prec: int)
    requires ValidBase(base)
    ensures var text := DigitText(mag, flags, base, prec);
            forall i :: 0 <= i < |text| ==>
              text[i] in (if base == 8 then "01234567" else if base == 10 then "0123456789"
                          else if flags.upper then "0123456789ABCDEF" else "0123456789abcdef")
  {
    var text, numeral := DigitText(mag, flags, base, prec), Numeral(mag, base, flags.upper);
    forall i | 0 <= i < |text|
      ensures text[i] in (if base == 8 then "01234567" else if base == 10 then "0123456789"
                          else if flags.upper then "0123456789ABCDEF" else "0123456789abcdef")
    {
      if i < |text| - |numeral| {
        assert text[i] == '0' == "01234567"[0] == "0123456789"[0] == "0123456789ABCDEF"[0] == "0123456789abcdef"[0];
      } else {
        NumeralChars(mag, base, flags.upper, i - (|text| - |numeral|));
      }
    }
  }

  /** Digits, ticks, sign and prefix are counted once each; padding only fills up to the width. */
  lemma FieldLength(val: Word, flags: Flags, base: nat, width: int, prec: int) returns (d: nat)
    requires ValidBase(base)
    ensures Magnitude(val, flags) < Pow(base, d) && (d > 0 ==> Pow(base, d - 1) <= Magnitude(val, flags))
    ensures var digits := Max(prec, Max(1, if flags.hash && base == 8 then d + 1 else d));
            var ticks := if flags.tick then (digits - 1) / (if base == 16 then 4 else 3) else 0;
            |Field(val, flags, base, width, prec)|
            == Max(width, digits + ticks + |Sign(val, flags)| + |Prefix(flags, base)|)
  {
    var mag := Magnitude(val, flags);
    FieldMeasure(val, flags, base, width, prec);
    d := |Numeral(mag, base, flags.upper)|;
    NumeralSize(mag, base, flags.upper);
  }

  // ----- reading back

  function SkipSpaces(s: string): string {
    if s != "" && s[0] == ' ' then SkipSpaces(s[1..]) else s
  }

  predicate Starts(s: string, c: char) {
    s != "" && s[0] == c
  }

  function DropSign(s: string): string {
    if Starts(s, '-') || Starts(s, '+') then s[1..] else s
  }

  function DropPrefix(s: string, base: nat): string {
    if base == 16 && |s| >= 2 && s[0] == '0' && (s[1] == 'x' || s[1] == 'X') then s[2..] else s
  }

  /** Reads a printed number: blanks, a sign, an optional 0x in base 16, digits with ticks, blanks. */
  function Scan(text: string, base: nat): int {
    var s := SkipSpaces(text);
    var v: int := Read(DropPrefix(DropSign(s), base), base);
    if Starts(s, '-') then -v else v
  }

  lemma {:induction false} SkipFill(n: int, s: string)
    ensures SkipSpaces(Fill(' ', n) + s) == SkipSpaces(s)
    decreases n
  {
    if n <= 0 {
      assert Fill(' ', n) + s == s;
    } else {
      assert (Fill(' ', n) + s)[1..] == Fill(' ', n - 1) + s;
      SkipFill(n - 1, s);
    }
  }

  /** A body is digits and ticks, starts with a digit, and reads as its magnitude. */
  lemma BodyReads(mag: Word, flags: Flags, base: nat, prec: int)
    requires ValidBase(base)
    ensures var body := Body(mag, flags, base, prec);
            && Read(body, base) == mag
            && body != "" && DigitValue(body[0]) >= 0
            && forall i :: 0 <= i < |body| ==> body[i] == '_' || DigitValue(body[i]) >= 0
  {
    DigitTextChars(mag, flags, base, prec);
    var digits := DigitText(mag, flags, base, prec);
    GroupedChars(digits, TickDistance(base));
    ReadGrouped(digits, TickDistance(base), base);
  }

  predicate SignText(s: string) {
    s == "" || s == "-" || s == "+" || s == " "
  }

  predicate PrefixText(s: string, base: nat) {
    s == "" || (base == 16 && (s == "0x" || s == "0X"))
  }

  /** A run of digits, ticks and blanks that starts with a digit. */
  predicate NumberText(s: string) {
    && s != "" && DigitValue(s[0]) >= 0
    && forall i :: 0 <= i < |s| ==> s[i] == '_' || s[i] == ' ' || DigitValue(s[i]) >= 0
  }

  lemma ScanPrefix(prefix: string, number: string, base: nat)
    requires PrefixText(prefix, base) && NumberText(number)
    ensures DropPrefix(prefix + number, base) == number
    ensures prefix + number != "" && DigitValue((prefix + number)[0]) >= 0
  {
    assert DigitValue('x') == -1 && DigitValue('X') == -1;
    if prefix == "" {
      assert prefix + number == number;
    } else {
      assert (prefix + number)[2..] == number;
    }
  }

  lemma ScanSign(sign: string, rest: string)
    requires SignText(sign) && rest != "" && DigitValue(rest[0]) >= 0
    ensures DropSign(SkipSpaces(sign + rest)) == rest
    ensures Starts(SkipSpaces(sign + rest), '-') <==> sign == "-"
  {
    if sign == "" {
      assert sign + rest == rest;
    } else {
      assert (sign + rest)[1..] == rest;
    }
  }

  /** Blanks, sign, prefix and a number scan as the number. */
  lemma ScanPieces(lead: int, sign: string, prefix: string, number: string, base: nat)
    requires SignText(sign) && PrefixText(prefix, base) && NumberText(number)
    ensures var v: int := Read(number, base);
            Scan(Fill(' ', lead) + (sign + (prefix + number)), base) == if sign == "-" then -v else v
  {
    SkipFill(lead, sign + (prefix + number));
    ScanPrefix(prefix, number, base);
    ScanSign(sign, prefix + number);
  }

  /** The padded number of a field, as one run of digits, ticks and trailing blanks. */
  lemma PaddedBody(zeros: int, body: string, blanks: int, base: nat)
    requires body != "" && DigitValue(body[0]) >= 0
    requires forall i :: 0 <= i < |body| ==> body[i] == '_' || DigitValue(body[i]) >= 0
    ensures var number := Fill('0', zeros) + body + Fill(' ', blanks);
            Read(number, base) == Read(body, base) && NumberText(number)
  {
    ReadPadded(zeros, body, blanks, base);
  }

  /** Every layout is blanks, sign, prefix, zeros, body and blanks, with one kind of padding at most. */
  lemma LayoutPieces(sign: string, prefix: string, body: string, flags: Flags, width: int)
    returns (lead: int, zeros: int, trail: int)
    ensures Layout(sign, prefix, body, flags, width)
            == Fill(' ', lead) + (sign + (prefix + (Fill('0', zeros) + body + Fill(' ', trail))))
    ensures (zeros > 0 ==> lead <= 0) && (trail > 0 ==> lead <= 0 && zeros <= 0)
  {
    var pad := width - |sign| - |prefix| - |body|;
    lead := if flags.minus || flags.zero then 0 else pad;
    zeros := if flags.zero && !flags.minus then pad else 0;
    trail := if flags.minus then pad else 0;
  }

  /** Round trip: a field, whatever its padding, sign, prefix and ticks, scans as its number. */
  lemma FieldRoundTrip(val: Word, flags: Flags, base: nat, width: int, prec: int)
    requires ValidBase(base)
    ensures Scan(Field(val, flags, base, width, prec), base) == NumericValue(val, flags)
  {
    var body := Body(Magnitude(val, flags), flags, base, prec);
    var lead, zeros, trail := LayoutPieces(Sign(val, flags), Prefix(flags, base), body, flags, width);
    BodyReads(Magnitude(val, flags), flags, base, prec);
    PaddedBody(zeros, body, trail, base);
    ScanPieces(lead, Sign(val, flags), Prefix(flags, base), Fill('0', zeros) + body + Fill(' ', trail), base);
  }

  /** Two equal fields of one base and signedness print the same word, whatever their options. */
  lemma FieldInjective(v1: Word, f1: Flags, w1: int, p1: int, v2: Word, f2: Flags, w2: int, p2: int, base: nat)
    requires ValidBase(base) && f1.signed == f2.signed
    requires Field(v1, f1, base, w1, p1) == Field(v2, f2, base, w2, p2)
    ensures v1 == v2
  {
    FieldRoundTrip(v1, f1, base, w1, p1);
    FieldRoundTrip(v2, f2, base, w2, p2);
  }
}
