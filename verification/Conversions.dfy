/** What each directive means, told in its own characters and in its argument words: how it is parsed,
    and what every conversion prints, stores and takes. */
module Conversions {
  import opened Machine
  import opened Arithmetic
  import opened Numerals
  import opened IntField
  import opened Directives
  import opened Rendering

  predicate OnlyFrom(s: string, chars: string) {
    forall i :: 0 <= i < |s| ==> s[i] in chars
  }

  // ----- how a directive is parsed

  lemma SyntaxCharacters(c: char)
    ensures IsFlag(c) <==> c in "-+' #0"
    ensures IsCount(c) <==> c in "0123456789*"
    ensures IsModifier(c) <==> c in "hljztLq"
  {
    var counts := "0123456789*";
    if IsDecimal(c) {
      assert c == counts[c as int - '0' as int];
    }
  }

  lemma PartsAre(flags: string, width: string, prec: string, mods: string)
    requires OnlyFrom(flags, "-+' #0") && OnlyFrom(width, "0123456789*")
    requires OnlyFrom(prec, "0123456789*") && OnlyFrom(mods, "hljztLq")
    ensures AllFlags(flags) && AllCounts(width) && AllCounts(prec) && AllModifiers(mods)
  {
    forall c
      ensures IsFlag(c) <==> c in "-+' #0"
      ensures IsCount(c) <==> c in "0123456789*"
      ensures IsModifier(c) <==> c in "hljztLq"
    {
      SyntaxCharacters(c);
    }
  }

  /** A percent sign, flags, a width, a point and a precision, modifiers, and a conversion character
      are parsed into just these parts. */
  lemma PreciseDirective(flags: string, width: string, prec: string, mods: string, conv: char, rest: string)
    requires OnlyFrom(flags, "-+' #0") && OnlyFrom(width, "0123456789*")
    requires OnlyFrom(prec, "0123456789*") && OnlyFrom(mods, "hljztLq")
    requires width != "" ==> width[0] != '0'
    requires conv !in "hljztLq" && (mods == "" ==> conv !in "0123456789*")
    ensures Parse("%" + flags + width + "." + prec + mods + [conv] + rest)
            == [Directive(flags, width, true, prec, mods, conv)] + Parse(rest)
  {
    PartsAre(flags, width, prec, mods);
    SyntaxCharacters(conv);
    var item := Directive(flags, width, true, prec, mods, conv);
    assert WellFormed(item);
    hide WellFormed, Parse, WriteItem;
    WriteParts(item);
    ParseItem(item, rest);
  }

  lemma WriteParts(item: Item)
    requires item.Directive?
    ensures item.dot ==> WriteItem(item) == "%" + item.flags + item.width + "." + item.prec + item.mods + [item.conv]
    ensures !item.dot && item.prec == "" ==> WriteItem(item) == "%" + item.flags + item.width + item.mods + [item.conv]
  {
  }

  /** The same without a precision. */
  lemma SimpleDirective(flags: string, width: string, mods: string, conv: char, rest: string)
    requires OnlyFrom(flags, "-+' #0") && OnlyFrom(width, "0123456789*") && OnlyFrom(mods, "hljztLq")
    requires width != "" ==> width[0] != '0'
    requires conv !in "hljztLq" && (mods == "" ==> conv !in "0123456789*." && (width == "" ==> conv !in "-+' #0"))
    ensures Parse("%" + flags + width + mods + [conv] + rest)
            == [Directive(flags, width, false, "", mods, conv)] + Parse(rest)
  {
    PartsAre(flags, width, "", mods);
    SyntaxCharacters(conv);
    var item := Directive(flags, width, false, "", mods, conv);
    assert WellFormed(item);
    hide WellFormed, Parse, WriteItem;
    WriteParts(item);
    ParseItem(item, rest);
  }

  // ----- the rank

  /** The length of the text up to its last `j`, `z` or `t`. */
  function SetterEnd(t: string): (k: nat)
    ensures k <= |t|
  {
    if t == "" || t[|t| - 1] in "jzt" then |t| else SetterEnd(t[..|t| - 1])
  }

  /** The rank modifiers stand for: what the last `j`, `z` or `t` sets, one more for every `l` behind
      it, two more for every `L` or `q`, and one less for every `h`. */
  function RankNumber(t: string): int {
    var k := SetterEnd(t);
    var start: int := if k == 0 then 0 else if t[k - 1] == 'j' then 2 else 1;
    var counts := multiset(t[k..]);
    start + counts['l'] + 2 * counts['L'] + 2 * counts['q'] - counts['h']
  }

  lemma RankNumberSnoc(t: string)
    requires t != "" && t[|t| - 1] in "hljztLq"
    ensures var init, c := t[..|t| - 1], t[|t| - 1];
            RankNumber(t) == if c == 'j' then 2 else if c == 'z' || c == 't' then 1
                             else RankNumber(init) + (if c == 'h' then -1 else if c == 'l' then 1 else 2)
  {
    var init, c := t[..|t| - 1], t[|t| - 1];
    var k := SetterEnd(t);
    if c in "jzt" {
      assert t[k..] == [];
    } else {
      assert t[k..] == init[k..] + [c];
    }
  }

  lemma {:induction false} RankMeaning(t: string)
    requires OnlyFrom(t, "hljztLq")
    ensures RankOf(t) == ToInt(RankNumber(t))
  {
    hide RankNumber, ToInt, SetterEnd;
    if t == "" {
      NoModifiers();
    } else {
      var init, c := t[..|t| - 1], t[|t| - 1];
      RankMeaning(init);
      RankNumberSnoc(t);
      IntIsInt(1);
      IntIsInt(2);
      WrapSum(RankNumber(init), if c == 'h' then -1 else if c == 'l' then 1 else 2);
    }
  }

  lemma NoModifiers()
    ensures RankNumber("") == 0 == ToInt(0)
  {
    assert ""[0..] == "";
  }

  lemma WrapSum(a: int, d: int)
    ensures ToInt(ToInt(a) + d) == ToInt(a + d)
  {
    if a % TWO_32 < INT_LIMIT {
      SameRemainder(ToInt(a) + d, a + d, a / TWO_32);
    } else {
      SameRemainder(ToInt(a) + d, a + d, a / TWO_32 + 1);
    }
  }

  /** The rank of a directive, from -2 to 2. */
  function RankIn(mods: string): int {
    Max(-2, Min(2, ToInt(RankNumber(mods))))
  }

  // ----- integers

  /** v is the argument word w, cut to the size of the rank, as a signed or unsigned number. */
  predicate CutsTo(v: int, w: Word, conv: char, rank: int) {
    if conv in "di" then
      && (rank == -2 ==> -0x80 <= v < 0x80 && (w - v) % 0x100 == 0)
      && (rank == -1 ==> -0x8000 <= v < 0x8000 && (w - v) % 0x1_0000 == 0)
      && (rank >= 0 ==> -0x8000_0000 <= v < 0x8000_0000 && (w - v) % 0x1_0000_0000 == 0)
    else if conv in "pP" then v == w
    else
      && (rank == -2 ==> 0 <= v < 0x100 && (w - v) % 0x100 == 0)
      && (rank == -1 ==> 0 <= v < 0x1_0000 && (w - v) % 0x1_0000 == 0)
      && (rank >= 0 ==> v == w)
  }

  function DigitsOf(conv: char): string {
    if conv == 'o' then "01234567" else if conv in "diu" then "0123456789"
    else if conv in "XP" then "0123456789ABCDEF" else "0123456789abcdef"
  }

  /** A body of digits for a magnitude: in its base and case, with ticks between groups of three or
      four if asked for, and with as many digits as the precision asks for and the magnitude needs:
      d is the least number of digits that holds it. */
  predicate ShowsDigits(body: string, conv: char, flags: string, prec: int, mag: nat, d: nat) {
    var digits := DigitsOf(conv);
    var base, group := |digits|, if conv in "xXpP" then 4 else 3;
    && mag < Pow(base, d) && (d > 0 ==> Pow(base, d - 1) <= mag)
    && Read(body, base) == mag
    && DigitsIn(body) == Max(prec, Max(1, if conv == 'o' && '#' in flags then d + 1 else d))
    && (forall i :: 0 <= i < |body| ==> body[i] in digits || body[i] == '_')
    && (forall i :: 0 <= i < |body| ==>
          (body[i] == '_' <==> '\'' in flags && (|body| - 1 - i) % (group + 1) == group))
  }

  /** The text of a number: sign, prefix and body, padded to the width on the side the flags say. */
  predicate ShowsNumber(text: string, conv: char, flags: string, minus: bool, width: int, v: int, body: string) {
    var sign := if v < 0 then "-"
                else if '+' in flags then "+"
                else if ' ' in flags then " "
                else "";
    var prefix := if conv in "pP" || (conv in "xX" && '#' in flags) then (if conv in "XP" then "0X" else "0x") else "";
    var pad := width - |sign| - |prefix| - |body|;
    text == if minus then sign + prefix + body + Fill(' ', pad)
            else if '0' in flags then sign + prefix + Fill('0', pad) + body
            else Fill(' ', pad) + sign + prefix + body
  }

  /** A `-` flag, or a negative argument for the width. */
  predicate MinusOf(item: Item, env: Env, next: nat)
    requires item.Directive?
  {
    '-' in item.flags || AnyNegative(item.width, next, env)
  }

  function WidthOf(item: Item, env: Env, next: nat): int
    requires item.Directive?
  {
    ToInt(WidthNumber(item.width, next, env))
  }

  function PrecisionOf(item: Item, env: Env, next: nat): int
    requires item.Directive?
  {
    if item.dot then ToInt(PrecNumber(item.prec, next + Stars(item.width), env)) else -1
  }

  lemma IntegerCharacters(conv: char)
    ensures IsIntegerConv(conv) <==> conv in "diouxXpP"
    ensures IsSignedConv(conv) <==> conv in "di"
    ensures IsPointerConv(conv) <==> conv in "pP"
    ensures IsStringConv(conv) <==> conv in "cs"
    ensures conv in "diouxXpP" ==> BaseOf(conv) == |DigitsOf(conv)|
  {
  }

  /** A body, told in the characters of the directive. */
  lemma BodyShows(conv: char, flags: string, f: Flags, mag: Word, prec: int) returns (d: nat)
    requires conv in "diouxXpP" && f == IntegerFlags(conv, FlagsOf(flags).(minus := f.minus))
    ensures ShowsDigits(Body(mag, f, BaseOf(conv), prec), conv, flags, prec, mag, d)
  {
    hide Body, Numeral, Read, DigitsIn, Pow, FlagsOf;
    IntegerCharacters(conv);
    FlagCharacters(flags);
    var body := Body(mag, f, BaseOf(conv), prec);
    d := BodyShape(mag, f, BaseOf(conv), prec);
    var group := if conv in "xXpP" then 4 else 3;
    forall i | 0 <= i < |body|
      ensures body[i] == '_' <==> '\'' in flags && (|body| - 1 - i) % (group + 1) == group
    {
      TickShows(conv, flags, f, mag, prec, i);
    }
  }

  lemma TickShows(conv: char, flags: string, f: Flags, mag: Word, prec: int, i: nat)
    requires conv in "diouxXpP" && f == IntegerFlags(conv, FlagsOf(flags).(minus := f.minus))
    requires i < |Body(mag, f, BaseOf(conv), prec)|
    ensures var body, group := Body(mag, f, BaseOf(conv), prec), if conv in "xXpP" then 4 else 3;
            body[i] == '_' <==> '\'' in flags && (|body| - 1 - i) % (group + 1) == group
  {
    hide Body, Numeral, Read, DigitsIn, Pow, FlagsOf, DigitsOf;
    IntegerCharacters(conv);
    FlagCharacters(flags);
    var body := Body(mag, f, BaseOf(conv), prec);
    if f.tick {
      TicksInBody(mag, f, BaseOf(conv), prec, |body| - 1 - i);
      assert body[|body| - 1 - (|body| - 1 - i)] == body[i];
    } else {
      var d := BodyShape(mag, f, BaseOf(conv), prec);
      NoTick(conv);
    }
  }

  /** A field, told in the characters of the directive. */
  lemma FieldShows(conv: char, flags: string, f: Flags, val: Word, width: int, prec: int)
    returns (body: string, d: nat)
    requires conv in "diouxXpP" && f == IntegerFlags(conv, FlagsOf(flags).(minus := f.minus))
    ensures var v := NumericValue(val, f);
            && (conv !in "di" ==> v == val) && (conv in "di" ==> v == Signed32(val))
            && ShowsNumber(Field(val, f, BaseOf(conv), width, prec), conv, flags, f.minus, width, v, body)
            && ShowsDigits(body, conv, flags, prec, if v < 0 then -v else v, d)
  {
    hide Body, FlagsOf, ShowsDigits, ShowsNumber, Field, Sign, Prefix, BaseOf, NumericValue, Magnitude, IntegerFlags;
    IntegerCharacters(conv);
    ValueIs(conv, flags, f, val);
    SignAndPrefix(conv, flags, f, val);
    var mag := Magnitude(val, f);
    body := Body(mag, f, BaseOf(conv), prec);
    d := BodyShows(conv, flags, f, mag, prec);
    FieldPadding(val, f, BaseOf(conv), width, prec);
    NumberShows(Field(val, f, BaseOf(conv), width, prec), conv, flags, f, width, NumericValue(val, f),
                Sign(val, f), Prefix(f, BaseOf(conv)), body);
  }

  lemma NumberShows(text: string, conv: char, flags: string, f: Flags, width: int, v: int,
                    sign: string, prefix: string, body: string)
    requires f.zero == ('0' in flags)
    requires sign == if v < 0 then "-" else if '+' in flags then "+" else if ' ' in flags then " " else ""
    requires prefix
             == if conv in "pP" || (conv in "xX" && '#' in flags) then (if conv in "XP" then "0X" else "0x") else ""
    requires var pad := width - |sign| - |prefix| - |body|;
             text == if f.minus then sign + prefix + body + Fill(' ', pad)
                     else if f.zero then sign + prefix + Fill('0', pad) + body
                     else Fill(' ', pad) + sign + prefix + body
    ensures ShowsNumber(text, conv, flags, f.minus, width, v, body)
  {
  }

  lemma ValueIs(conv: char, flags: string, f: Flags, val: Word)
    requires conv in "diouxXpP" && f == IntegerFlags(conv, FlagsOf(flags).(minus := f.minus))
    ensures NumericValue(val, f) == if conv in "di" then Signed32(val) else val
    ensures Magnitude(val, f) == if NumericValue(val, f) < 0 then -NumericValue(val, f) else NumericValue(val, f)
    ensures f.zero == ('0' in flags) && ValidBase(BaseOf(conv))
  {
    hide FlagsOf;
    IntegerCharacters(conv);
    FlagCharacters(flags);
  }

  lemma SignAndPrefix(conv: char, flags: string, f: Flags, val: Word)
    requires conv in "diouxXpP" && f == IntegerFlags(conv, FlagsOf(flags).(minus := f.minus))
    ensures Sign(val, f) == if NumericValue(val, f) < 0 then "-"
                            else if '+' in flags then "+"
                            else if ' ' in flags then " "
                            else ""
    ensures Prefix(f, BaseOf(conv))
            == if conv in "pP" || (conv in "xX" && '#' in flags) then (if conv in "XP" then "0X" else "0x") else ""
  {
    hide FlagsOf;
    IntegerCharacters(conv);
    FlagCharacters(flags);
  }

  lemma NoTick(conv: char)
    ensures '_' !in DigitsOf(conv)
    ensures '_' !in "01234567" && '_' !in "0123456789" && '_' !in "0123456789ABCDEF" && '_' !in "0123456789abcdef"
  {
  }

  lemma FlagCharacters(flags: string)
    ensures var f := FlagsOf(flags);
            && f.zero == ('0' in flags) && f.minus == ('-' in flags) && f.plus == ('+' in flags)
            && f.tick == ('\'' in flags) && f.space == (' ' in flags) && f.hash == ('#' in flags)
            && !f.signed && !f.upper
  {
  }

  /** Where the padding of a field stands. */
  lemma FieldPadding(val: Word, f: Flags, base: nat, width: int, prec: int)
    requires ValidBase(base)
    ensures var sign, prefix, body := Sign(val, f), Prefix(f, base), Body(Magnitude(val, f), f, base, prec);
            var pad := width - |sign| - |prefix| - |body|;
            Field(val, f, base, width, prec)
            == if f.minus then sign + prefix + body + Fill(' ', pad)
               else if f.zero then sign + prefix + Fill('0', pad) + body
               else Fill(' ', pad) + sign + prefix + body
  {
    hide Sign, Prefix, Body;
    var sign, prefix, body := Sign(val, f), Prefix(f, base), Body(Magnitude(val, f), f, base, prec);
    assert sign + prefix + body + "" == sign + prefix + body;
  }

  /** What any integer or pointer directive prints: the number of its argument, cut to its rank, in
      base 8 for `o`, 10 for `d`, `i` and `u`, and 16 for `x`, `X`, `p` and `P`. It takes one argument
      word behind those of its stars, or two for the longest rank, and stores nothing. */
  lemma IntegerDirectiveText(item: Item, env: Env, next: nat, count: nat) returns (v: int, body: string, d: nat)
    requires item.Directive? && item.conv in "diouxXpP" && OnlyFrom(item.mods, "hljztLq")
    ensures var e, at, rank := ItemEffect(item, env, next, count), ArgumentAt(item, next), RankIn(item.mods);
            && CutsTo(v, env.word(at), item.conv, rank)
            && ShowsNumber(e.text, item.conv, item.flags, MinusOf(item, env, next), WidthOf(item, env, next), v, body)
            && ShowsDigits(body, item.conv, item.flags,
                           if item.conv in "pP" then 8 else PrecisionOf(item, env, next), if v < 0 then -v else v, d)
            && e.next == at + (if rank == 2 && item.conv !in "pP" then 2 else 1) && e.stores == []
  {
    hide SettingsOf, ArgumentAt, ToInt, Field, ShowsNumber, ShowsDigits, FlagsOf, AnyNegative, RankNumber, RankOf,
         CutSigned, CutUnsigned, WidthNumber, PrecNumber;
    var conv := item.conv;
    IntegerCharacters(conv);
    SettingsMeaning(item, env, next);
    RankMeaning(item.mods);
    FlagCharacters(item.flags);
    var s, rank := SettingsOf(item, env, next), RankIn(item.mods);
    var val, f := IntegerValue(conv, env.word(s.next), rank), IntegerFlags(conv, s.flags);
    body, d := FieldShows(conv, item.flags, f, val, s.width, if conv in "pP" then 8 else s.prec);
    v := NumericValue(val, f);
    CutMeaning(env.word(s.next), rank);
  }

  /** The same text read back by a reader that knows the base only. */
  lemma IntegerDirectiveScans(item: Item, env: Env, next: nat, count: nat)
    requires item.Directive? && item.conv in "diouxXpP" && OnlyFrom(item.mods, "hljztLq")
    ensures var base := if item.conv == 'o' then 8 else if item.conv in "diu" then 10 else 16;
            CutsTo(Scan(ItemEffect(item, env, next, count).text, base), env.word(ArgumentAt(item, next)),
                   item.conv, RankIn(item.mods))
  {
    hide SettingsOf, ArgumentAt, ToInt, Field, Scan, FlagsOf, AnyNegative, RankNumber, RankOf, CutSigned, CutUnsigned,
         WidthNumber, PrecNumber;
    var conv := item.conv;
    IntegerCharacters(conv);
    SettingsMeaning(item, env, next);
    OptionsUnsigned(item, env, next);
    RankMeaning(item.mods);
    var s, rank := SettingsOf(item, env, next), RankIn(item.mods);
    CutMeaning(env.word(s.next), rank);
    FieldRoundTrip(IntegerValue(conv, env.word(s.next), rank), IntegerFlags(conv, s.flags),
                   BaseOf(conv), s.width, if IsPointerConv(conv) then 8 else s.prec);
  }

  /** A pointer without `+`, blank and `'` in a width of at most ten is a prefix and exactly eight digits
      that read as its address. */
  lemma PointerText(item: Item, env: Env, next: nat, count: nat)
    requires item.Directive? && item.conv in "pP" && OnlyFrom(item.mods, "hljztLq")
    requires '+' !in item.flags && ' ' !in item.flags && '\'' !in item.flags && WidthOf(item, env, next) <= 10
    ensures var text := ItemEffect(item, env, next, count).text;
            && |text| == 10 && text[..2] == (if item.conv == 'P' then "0X" else "0x")
            && Read(text[2..], 16) == env.word(ArgumentAt(item, next))
            && OnlyFrom(text[2..], if item.conv == 'P' then "0123456789ABCDEF" else "0123456789abcdef")
  {
    hide ItemEffect, ArgumentAt, WidthOf, MinusOf, RankIn, Read, ShowsNumber, ShowsDigits, DigitsOf;
    var v, body, d := IntegerDirectiveText(item, env, next, count);
    PointerDigits(body, item.conv, item.flags, v, d);
    PointerShape(ItemEffect(item, env, next, count).text, item.conv, item.flags, MinusOf(item, env, next),
                 WidthOf(item, env, next), v, body);
  }

  lemma PointerDigits(body: string, conv: char, flags: string, v: Word, d: nat)
    requires conv in "pP" && '\'' !in flags && ShowsDigits(body, conv, flags, 8, v, d)
    ensures |body| == 8 && Read(body, 16) == v
    ensures OnlyFrom(body, if conv == 'P' then "0123456789ABCDEF" else "0123456789abcdef")
  {
    hide Read, DigitsIn, Pow;
    WordSize(v, d);
    NoTicks(body, DigitsOf(conv));
  }

  lemma PointerShape(text: string, conv: char, flags: string, minus: bool, width: int, v: int, body: string)
    requires ShowsNumber(text, conv, flags, minus, width, v, body) && conv in "pP" && v >= 0
    requires '+' !in flags && ' ' !in flags && |body| == 8 && width <= 10
    ensures |text| == 10 && text[2..] == body && text[..2] == if conv == 'P' then "0X" else "0x"
  {
    var prefix := if conv == 'P' then "0X" else "0x";
    NoPadding(prefix, body, Fill(' ', width - 10));
    NoPadding(prefix, body, Fill('0', width - 10));
    TwoThen(prefix, body);
  }

  lemma NoPadding(prefix: string, body: string, pad: string)
    requires pad == ""
    ensures "" + prefix + body + pad == prefix + body
    ensures "" + prefix + pad + body == prefix + body
    ensures pad + "" + prefix + body == prefix + body
  {
  }

  lemma TwoThen(prefix: string, body: string)
    requires |prefix| == 2
    ensures (prefix + body)[..2] == prefix && (prefix + body)[2..] == body
  {
  }

  lemma WordSize(v: Word, d: nat)
    requires d > 0 ==> Pow(16, d - 1) <= v
    ensures d <= 8
  {
    PowEight();
    if d > 8 {
      PowMonotone(16, 8, d - 1);
    }
  }

  /** Without ticks every character is a digit. */
  lemma NoTicks(body: string, digits: string)
    requires digits == "0123456789abcdef" || digits == "0123456789ABCDEF"
    requires forall i :: 0 <= i < |body| ==> body[i] in digits || body[i] == '_'
    requires forall i :: 0 <= i < |body| ==> body[i] != '_'
    ensures OnlyFrom(body, digits) && DigitsIn(body) == |body|
  {
    hide DigitsIn;
    forall i | 0 <= i < |body|
      ensures body[i] in digits && DigitValue(body[i]) >= 0
    {
      DigitOf(body[i], digits);
    }
    DigitsOnly(body);
  }

  lemma DigitOf(c: char, digits: string)
    requires digits == "0123456789abcdef" || digits == "0123456789ABCDEF"
    requires c in digits
    ensures DigitValue(c) >= 0
  {
  }

  // ----- strings, stores, and everything else

  /** What any `%s` or `%c` directive prints whose precision is not below -1: the string at its
      argument, "(null)" for a null pointer, or the low byte as a character. */
  lemma StringDirectiveText(item: Item, env: Env, next: nat, count: nat)
    requires item.Directive? && item.conv in "cs" && PrecisionOf(item, env, next) >= -1
    ensures var e, at := ItemEffect(item, env, next, count), ArgumentAt(item, next);
            var arg := if item.conv == 'c' then [(env.word(at) % 0x100) as char]
                       else if env.word(at) == 0 then "(null)"
                       else env.text(env.word(at));
            && ShowsCut(e.text, arg, MinusOf(item, env, next), '0' in item.flags,
                        WidthOf(item, env, next), PrecisionOf(item, env, next))
            && e.next == at + 1 && e.stores == []
  {
    hide ShowsCut, SettingsOf, StringField, ArgumentAt, ToInt, AnyNegative, WidthNumber, PrecNumber;
    SettingsMeaning(item, env, next);
    var s := SettingsOf(item, env, next);
    StringFieldShowsCut(StringArgument(item.conv, env.word(s.next), env), s.flags, s.width, s.prec);
  }

  /** `%n` prints nothing and stores the number of characters before it through its argument, cut to
      the size of its rank. */
  lemma StoreDirective(item: Item, env: Env, next: nat, count: nat) returns (value: int)
    requires item.Directive? && item.conv == 'n' && OnlyFrom(item.mods, "hljztLq")
    ensures var at, rank := ArgumentAt(item, next), RankIn(item.mods);
            && ItemEffect(item, env, next, count) == Effect("", [Store(env.word(at), rank, value)], at + 1)
            && (rank == -2 ==> -0x80 <= value < 0x80 && (count - value) % 0x100 == 0)
            && (rank == -1 ==> -0x8000 <= value < 0x8000 && (count - value) % 0x1_0000 == 0)
            && (0 <= rank < 2 ==> -0x8000_0000 <= value < 0x8000_0000 && (count - value) % 0x1_0000_0000 == 0)
            && (rank == 2 ==> 0 <= value < 0x1_0000_0000 && (count - value) % 0x1_0000_0000 == 0)
  {
    hide SettingsOf, ArgumentAt, ToInt, AnyNegative, WidthNumber, PrecNumber, RankNumber, CutSigned;
    SettingsMeaning(item, env, next);
    RankMeaning(item.mods);
    var rank := RankIn(item.mods);
    value := StoredCount(count, rank);
    CutMeaning(count % TWO_32, rank);
    if rank < 2 {
      SameClass(count, value, if rank == -2 then 0x100 else if rank == -1 then 0x1_0000 else 0x1_0000_0000);
    }
  }

  lemma SameClass(count: nat, value: int, m: nat)
    requires m == 0x100 || m == 0x1_0000 || m == 0x1_0000_0000
    requires (count % TWO_32 - value) % m == 0
    ensures (count - value) % m == 0
  {
    var k := TWO_32 / m;
    DivMod(count, TWO_32);
    DivMod(count % TWO_32 - value, m);
    if m == 0x100 {
      DivUnique(count - value, m, count / TWO_32 * 0x100_0000 + (count % TWO_32 - value) / m, 0);
    } else if m == 0x1_0000 {
      DivUnique(count - value, m, count / TWO_32 * 0x1_0000 + (count % TWO_32 - value) / m, 0);
    } else {
      DivUnique(count - value, m, count / TWO_32 + (count % TWO_32 - value) / m, 0);
    }
  }

  /** Any other conversion character prints itself, and so does a character outside directives. */
  lemma OtherText(item: Item, env: Env, next: nat, count: nat)
    ensures item.Literal? ==> ItemEffect(item, env, next, count) == Effect([item.c], [], next)
    ensures item.Directive? && item.conv !in "diouxXpPcsn" ==>
              ItemEffect(item, env, next, count) == Effect([item.conv], [], ArgumentAt(item, next))
  {
    if item.Directive? {
      hide SettingsOf, ArgumentAt, ToInt, AnyNegative, WidthNumber, PrecNumber;
      IntegerCharacters(item.conv);
      SettingsMeaning(item, env, next);
    }
  }

  // ----- several directives

  /** The index of the next argument word behind a list of items. */
  function NextBehind(items: seq<Item>, env: Env, next: nat): nat {
    if items == [] then next else NextBehind(items[1..], env, ItemEffect(items[0], env, next, 0).next)
  }

  /** Items print one behind the other, each with the arguments and the count the items before it left. */
  lemma {:induction false} RenderConcat(a: seq<Item>, b: seq<Item>, env: Env, next: nat, count: nat)
    ensures var first := Render(a, env, next, count);
            var second := Render(b, env, NextBehind(a, env, next), count + |first.text|);
            Render(a + b, env, next, count) == Output(first.text + second.text, first.stores + second.stores)
  {
    hide ItemEffect;
    if a == [] {
      assert a + b == b;
      var second := Render(b, env, next, count);
      assert "" + second.text == second.text && [] + second.stores == second.stores;
    } else {
      var e := ItemEffect(a[0], env, next, count);
      NextIndependent(a[0], env, next, count);
      RenderConcat(a[1..], b, env, e.next, count + |e.text|);
      assert (a + b)[1..] == a[1..] + b;
      var inner := Render(a[1..], env, e.next, count + |e.text|);
      var second := Render(b, env, NextBehind(a, env, next), count + |e.text + inner.text|);
      AppendAssoc(e.text, inner.text, second.text);
      AppendAssoc(e.stores, inner.stores, second.stores);
    }
  }
}
