/** The meaning of format items: settings, arguments, and the text each item prints. */
module Rendering {
  import opened Arithmetic
  import opened Machine
  import opened Numerals
  import opened IntField
  import opened Directives

  /** What a call can read: the 32-bit words of its argument area, and the strings in memory
      (the characters before the terminating zero at each address). */
  datatype Env = Env(word: nat -> Word, text: Word -> string)

  /** The options of one directive, and the index of the next argument word. */
  datatype Settings = Settings(flags: Flags, width: Int, prec: Int, rank: Int, next: nat)

  const RANK_CHAR := -2
  const RANK_SHORT := -1
  const RANK_INT := 0
  const RANK_LONG := 1
  const RANK_LONGLONG := 2

  /** A flag is set when its character occurs. */
  function FlagsOf(t: string): Flags {
    Flags('0' in t, '-' in t, '+' in t, '\'' in t, ' ' in t, '#' in t, false, false)
  }

  function DecimalValue(c: char): int {
    c as int - '0' as int
  }

  function AddFlag(f: Flags, c: char): Flags {
    match c
    case '-' => f.(minus := true)
    case '+' => f.(plus := true)
    case '\'' => f.(tick := true)
    case ' ' => f.(space := true)
    case '#' => f.(hash := true)
    case _ => f.(zero := true)
  }

  /** A digit extends the width, which wraps around; `*` takes it from the arguments, with a negative one as a `-`. */
  function WidthStep(s: Settings, c: char, env: Env): Settings {
    if IsDecimal(c) then s.(width := ToInt(s.width * 10 + DecimalValue(c)))
    else
      var w := Signed32(env.word(s.next));
      s.(width := if w < 0 then Negate32(w) else w,
         flags := if w < 0 then s.flags.(minus := true) else s.flags,
         next := s.next + 1)
  }

  function PrecStep(s: Settings, c: char, env: Env): Settings {
    if IsDecimal(c) then s.(prec := ToInt(s.prec * 10 + DecimalValue(c)))
    else s.(prec := Max(Signed32(env.word(s.next)), -1), next := s.next + 1)
  }

  function RankStep(rank: Int, c: char): Int {
    match c
    case 'h' => ToInt(rank - 1)
    case 'l' => ToInt(rank + 1)
    case 'j' => RANK_LONGLONG
    case 'z' => RANK_LONG
    case 't' => RANK_LONG
    case _ => ToInt(rank + 2)
  }

  function AfterWidth(s: Settings, t: string, env: Env): Settings {
    if t == "" then s else WidthStep(AfterWidth(s, t[..|t| - 1], env), t[|t| - 1], env)
  }

  function AfterPrec(s: Settings, t: string, env: Env): Settings {
    if t == "" then s else PrecStep(AfterPrec(s, t[..|t| - 1], env), t[|t| - 1], env)
  }

  function RankOf(t: string): Int {
    if t == "" then RANK_INT else RankStep(RankOf(t[..|t| - 1]), t[|t| - 1])
  }

  function ClampRank(rank: int): int {
    Max(RANK_CHAR, Min(RANK_LONGLONG, rank))
  }

  function SettingsOf(item: Item, env: Env, next: nat): Settings
    requires item.Directive?
  {
    var start := Settings(FlagsOf(item.flags), 0, -1, RANK_INT, next);
    var wide := AfterWidth(start, item.width, env);
    var precise := if item.dot then AfterPrec(wide.(prec := 0), item.prec, env) else wide;
    precise.(rank := RankOf(item.mods))
  }

  // ----- conversions

  datatype Store = Store(address: Word, rank: int, value: int)

  datatype Effect = Effect(text: string, stores: seq<Store>, next: nat)

  /** How many argument words an integer of this rank takes. */
  function WordsOf(rank: int): nat {
    if rank == RANK_LONGLONG then 2 else 1
  }

  /** The 32-bit value an argument of this rank is cut down to. */
  function CutSigned(w: Word, rank: int): Word {
    if rank == RANK_CHAR then SignExtend(w, 0x80)
    else if rank == RANK_SHORT then SignExtend(w, 0x8000)
    else w
  }

  function CutUnsigned(w: Word, rank: int): Word {
    if rank == RANK_CHAR then w % 0x100
    else if rank == RANK_SHORT then w % 0x1_0000
    else w
  }

  /** What a store of the count through a pointer of this rank leaves there. */
  function StoredCount(count: nat, rank: int): int {
    if rank == RANK_LONGLONG then count % TWO_32 else Signed32(CutSigned(count % TWO_32, rank))
  }

  predicate IsSignedConv(conv: char) {
    conv == 'd' || conv == 'i'
  }

  predicate IsUnsignedConv(conv: char) {
    conv == 'o' || conv == 'u' || conv == 'x' || conv == 'X'
  }

  predicate IsPointerConv(conv: char) {
    conv == 'p' || conv == 'P'
  }

  predicate IsStringConv(conv: char) {
    conv == 'c' || conv == 's'
  }

  predicate IsIntegerConv(conv: char) {
    IsSignedConv(conv) || IsUnsignedConv(conv) || IsPointerConv(conv)
  }

  function BaseOf(conv: char): (base: nat)
    ensures ValidBase(base)
  {
    if conv == 'o' then 8 else if IsSignedConv(conv) || conv == 'u' then 10 else 16
  }

  function IntegerValue(conv: char, w: Word, rank: int): Word {
    if IsSignedConv(conv) then CutSigned(w, rank)
    else if IsUnsignedConv(conv) then CutUnsigned(w, rank)
    else w
  }

  function IntegerFlags(conv: char, flags: Flags): Flags {
    flags.(signed := flags.signed || IsSignedConv(conv),
           upper := flags.upper || conv == 'X' || conv == 'P',
           hash := flags.hash || IsPointerConv(conv))
  }

  /** Integer conversions; a pointer is always eight digits behind a prefix. */
  function IntegerEffect(conv: char, s: Settings, rank: int, env: Env): Effect {
    var prec := if IsPointerConv(conv) then 8 else s.prec;
    var words := if IsPointerConv(conv) then 1 else WordsOf(rank);
    Effect(Field(IntegerValue(conv, env.word(s.next), rank), IntegerFlags(conv, s.flags), BaseOf(conv), s.width, prec),
           [], s.next + words)
  }

  function Padded(t: string, flags: Flags, pad: int): string {
    if flags.minus then t + Fill(' ', pad) else Fill(if flags.zero then '0' else ' ', pad) + t
  }

  function StringField(t: string, flags: Flags, width: int, prec: int): string {
    var cut := if 0 <= prec < |t| then t[..prec] else t;
    Padded(cut, flags, width - |cut|)
  }

  function StringArgument(conv: char, w: Word, env: Env): string {
    if conv == 'c' then [(w % 0x100) as char]
    else if w == 0 then "(null)"
    else env.text(w)
  }

  function Convert(conv: char, s: Settings, env: Env, count: nat): Effect {
    var rank := ClampRank(s.rank);
    if IsIntegerConv(conv) then IntegerEffect(conv, s, rank, env)
    else if IsStringConv(conv) then
      Effect(StringField(StringArgument(conv, env.word(s.next), env), s.flags, s.width, s.prec), [], s.next + 1)
    else if conv == 'n' then
      Effect("", [Store(env.word(s.next), rank, StoredCount(count, rank))], s.next + 1)
    else Effect([conv], [], s.next)
  }

  function ItemEffect(item: Item, env: Env, next: nat, count: nat): Effect {
    match item
    case Literal(c) => Effect([c], [], next)
    case Directive(_, _, _, _, _, conv) => Convert(conv, SettingsOf(item, env, next), env, count)
  }

  /** The text and stores of a list of items, printed after `count` characters. */
  datatype Output = Output(text: string, stores: seq<Store>)

  function Render(items: seq<Item>, env: Env, next: nat, count: nat): Output {
    if items == [] then Output("", [])
    else
      var first := ItemEffect(items[0], env, next, count);
      var others := Render(items[1..], env, first.next, count + |first.text|);
      Output(first.text + others.text, first.stores + others.stores)
  }

  function Printed(format: string, env: Env): Output {
    Render(Parse(format), env, 0, 0)
  }

  /** The string loop counts a negative precision other than -1 down from below zero and does not
      stop at the end of the string, so such a conversion has no meaning; and the lengths of
      arguments and fields are counted in ints. This is what the printer is proved for. */
  predicate Supported(conv: char, s: Settings, env: Env) {
    && (IsStringConv(conv) ==> s.prec >= -1 && |StringArgument(conv, env.word(s.next), env)| < INT_LIMIT)
    && (IsIntegerConv(conv) ==> |IntegerEffect(conv, s, ClampRank(s.rank), env).text| < INT_LIMIT)
  }

  predicate ItemSupported(item: Item, env: Env, next: nat) {
    item.Directive? ==> Supported(item.conv, SettingsOf(item, env, next), env)
  }

  predicate Renderable(items: seq<Item>, env: Env, next: nat) {
    items != [] ==>
      && ItemSupported(items[0], env, next)
      && Renderable(items[1..], env, ItemEffect(items[0], env, next, 0).next)
  }

  lemma NextIndependent(item: Item, env: Env, next: nat, count: nat)
    ensures ItemEffect(item, env, next, count).next == ItemEffect(item, env, next, 0).next
  {
  }

  lemma RenderCons(first: Item, others: seq<Item>, env: Env, next: nat, count: nat)
    ensures var e := ItemEffect(first, env, next, count);
            var rest := Render(others, env, e.next, count + |e.text|);
            Render([first] + others, env, next, count) == Output(e.text + rest.text, e.stores + rest.stores)
  {
    assert ([first] + others)[1..] == others;
  }

  lemma RenderableCons(first: Item, others: seq<Item>, env: Env, next: nat, count: nat)
    requires Renderable([first] + others, env, next)
    ensures ItemSupported(first, env, next)
    ensures Renderable(others, env, ItemEffect(first, env, next, count).next)
  {
    assert ([first] + others)[1..] == others;
    NextIndependent(first, env, next, count);
  }

  // ----- what a width and a precision amount to

  /** How many decimal digits end the text of a width or precision. */
  function DecimalSuffix(t: string): (k: nat)
    ensures k <= |t|
  {
    if t == "" || !IsDecimal(t[|t| - 1]) then 0 else 1 + DecimalSuffix(t[..|t| - 1])
  }

  function Stars(t: string): nat {
    if t == "" then 0 else Stars(t[..|t| - 1]) + if IsDecimal(t[|t| - 1]) then 0 else 1
  }

  /** The digits at the end of t appended to the decimal digits of start. */
  function Extended(start: int, t: string): int {
    start * Pow(10, DecimalSuffix(t)) + Read(t[|t| - DecimalSuffix(t)..], 10)
  }

  /** The argument of the last `*`, and zero when there is none. */
  function LastStar(t: string, next: nat, env: Env): Int {
    if Stars(t) == 0 then 0 else Signed32(env.word(next + Stars(t) - 1))
  }

  /** The number a precision stands for: the last `*`, with -1 for a negative argument, and the
      digits behind it. */
  function PrecNumber(t: string, next: nat, env: Env): int {
    Extended(Max(LastStar(t, next, env), -1), t)
  }

  function Absolute(i: int): int {
    if i < 0 then -i else i
  }

  function WidthNumber(t: string, next: nat, env: Env): int {
    Extended(Absolute(LastStar(t, next, env)), t)
  }

  lemma ExtendedSnoc(start: int, t: string)
    requires t != ""
    ensures var init, c := t[..|t| - 1], t[|t| - 1];
            if IsDecimal(c) then Extended(start, t) == Extended(start, init) * 10 + DecimalValue(c)
            else Extended(start, t) == start
  {
    var init, c, k := t[..|t| - 1], t[|t| - 1], DecimalSuffix(t);
    if IsDecimal(c) {
      var digits := t[|t| - k..];
      assert digits[..|digits| - 1] == init[|init| - (k - 1)..];
      assert digits[|digits| - 1] == c && DigitValue(c) == DecimalValue(c);
      TimesTen(start, Pow(10, k - 1), Read(init[|init| - (k - 1)..], 10), DecimalValue(c));
    } else {
      assert t[|t|..] == "" && Pow(10, 0) == 1;
    }
  }

  lemma TimesTen(a: int, p: nat, r: int, d: int)
    ensures a * (p * 10) + (r * 10 + d) == (a * p + r) * 10 + d
  {
  }

  /** Wrapping at every digit leaves what wrapping once at the end leaves. */
  lemma WrapDigit(a: int, d: int)
    ensures ToInt(ToInt(a) * 10 + d) == ToInt(a * 10 + d)
  {
    var b := a * 10 + d;
    if a % TWO_32 < INT_LIMIT {
      SameRemainder(ToInt(a) * 10 + d, b, 10 * (a / TWO_32));
    } else {
      SameRemainder(ToInt(a) * 10 + d, b, 10 * (a / TWO_32) + 10);
    }
  }

  lemma SameRemainder(a: int, b: int, q: int)
    requires b == a + q * TWO_32
    ensures a % TWO_32 == b % TWO_32
  {
    DivUnique(b, TWO_32, a / TWO_32 + q, a % TWO_32);
  }

  lemma AbsoluteWraps(i: Int)
    ensures ToInt(Absolute(i)) == if i < 0 then Negate32(i) else i
  {
  }

  lemma IntIsInt(i: Int)
    ensures ToInt(i) == i
  {
  }

  predicate NegativeWord(env: Env, i: nat) {
    Signed32(env.word(i)) < 0
  }

  lemma IntExactly(i: int)
    requires -INT_LIMIT <= i
    ensures ToInt(i) == i <==> i < INT_LIMIT
  {
  }

  /** One of the arguments of a width is negative. */
  predicate AnyNegative(t: string, next: nat, env: Env) {
    exists i :: next <= i < next + Stars(t) && NegativeWord(env, i)
  }

  lemma NoCharacters(s: Settings, next: nat, env: Env)
    ensures AfterPrec(s, "", env) == AfterWidth(s, "", env) == s && Stars("") == 0 && LastStar("", next, env) == 0
    ensures Extended(0, "") == 0 && !AnyNegative("", next, env)
  {
  }

  lemma LastCharacter(s: Settings, t: string, next: nat, env: Env)
    requires t != ""
    ensures var init, c := t[..|t| - 1], t[|t| - 1];
            && AfterPrec(s, t, env) == PrecStep(AfterPrec(s, init, env), c, env)
            && AfterWidth(s, t, env) == WidthStep(AfterWidth(s, init, env), c, env)
            && Stars(t) == Stars(init) + (if IsDecimal(c) then 0 else 1)
            && LastStar(t, next, env)
               == if IsDecimal(c) then LastStar(init, next, env) else Signed32(env.word(next + Stars(init)))
  {
  }

  /** A precision is its number as an int, and takes one argument for every `*`. */
  lemma {:induction false} PrecisionMeaning(s: Settings, t: string, env: Env)
    requires s.prec == 0
    ensures AfterPrec(s, t, env) == s.(prec := ToInt(PrecNumber(t, s.next, env)), next := s.next + Stars(t))
  {
    hide ToInt, Extended, Signed32, IsDecimal, DecimalSuffix, Stars, LastStar, AfterPrec;
    if t == "" {
      NoCharacters(s, s.next, env);
      IntIsInt(0);
    } else {
      var init := t[..|t| - 1];
      LastCharacter(s, t, s.next, env);
      var start := Max(LastStar(t, s.next, env), -1);
      PrecisionMeaning(s, init, env);
      ExtendedSnoc(start, t);
      if IsDecimal(t[|t| - 1]) {
        WrapDigit(PrecNumber(init, s.next, env), DecimalValue(t[|t| - 1]));
      } else {
        IntIsInt(start);
      }
    }
  }

  lemma AnyNegativeSnoc(t: string, next: nat, env: Env)
    requires t != ""
    ensures var init := t[..|t| - 1];
            AnyNegative(t, next, env) <==>
              AnyNegative(init, next, env) || (!IsDecimal(t[|t| - 1]) && NegativeWord(env, next + Stars(init)))
  {
    hide Signed32, IsDecimal;
  }

  /** A width is its number as an int, with a `*` standing for the absolute value of its argument.
      Every negative argument is a `-` flag as well; the least int stays negative. */
  lemma {:induction false} WidthMeaning(s: Settings, t: string, env: Env)
    requires s.width == 0
    ensures AfterWidth(s, t, env)
            == s.(width := ToInt(WidthNumber(t, s.next, env)), next := s.next + Stars(t),
                  flags := s.flags.(minus := s.flags.minus || AnyNegative(t, s.next, env)))
  {
    hide ToInt, Extended, Signed32, IsDecimal, DecimalSuffix, AnyNegative, Stars, LastStar, AfterWidth;
    if t == "" {
      NoCharacters(s, s.next, env);
      IntIsInt(0);
    } else {
      var init := t[..|t| - 1];
      LastCharacter(s, t, s.next, env);
      AnyNegativeSnoc(t, s.next, env);
      var last := LastStar(t, s.next, env);
      var start := Absolute(last);
      WidthMeaning(s, init, env);
      ExtendedSnoc(start, t);
      if IsDecimal(t[|t| - 1]) {
        WrapDigit(WidthNumber(init, s.next, env), DecimalValue(t[|t| - 1]));
      } else {
        AbsoluteWraps(last);
      }
    }
  }

  // ----- when a directive has no meaning

  /** The last `*` of the precision takes a negative argument. */
  predicate NegativeStar(t: string, next: nat, env: Env) {
    LastStar(t, next, env) < 0
  }

  predicate AllNines(t: string) {
    forall i :: |t| - DecimalSuffix(t) <= i < |t| ==> t[i] == '9'
  }

  /** Before wrapping, exactly a negative `*` with digits other than nines behind it gives less than -1. */
  lemma {:induction false} NegativeNumber(t: string, next: nat, env: Env)
    ensures PrecNumber(t, next, env) < -1 <==> NegativeStar(t, next, env) && !AllNines(t)
    ensures PrecNumber(t, next, env) == -1 <==> NegativeStar(t, next, env) && AllNines(t)
  {
    if t == "" {
      assert Extended(0, t) == 0;
    } else {
      hide Extended;
      var init := t[..|t| - 1];
      NegativeNumber(init, next, env);
      ExtendedSnoc(Max(LastStar(t, next, env), -1), t);
      if IsDecimal(t[|t| - 1]) {
        assert DecimalSuffix(t) == DecimalSuffix(init) + 1;
        assert AllNines(t) <==> AllNines(init) && t[|t| - 1] == '9';
      }
    }
  }

  /** The number of a precision wraps to an int below -1. */
  predicate WrapsBelow(number: int) {
    INT_LIMIT <= number % TWO_32 < TWO_32 - 1
  }

  /** A precision falls below -1 exactly when its number wraps there. When the number is an int,
      that is a negative `*` followed by digits that are not all nines. */
  lemma PrecisionBreaks(s: Settings, t: string, env: Env)
    requires s.prec == 0
    ensures var number := PrecNumber(t, s.next, env);
            && (AfterPrec(s, t, env).prec < -1 <==> WrapsBelow(number))
            && (-INT_LIMIT <= number < INT_LIMIT ==>
                  (WrapsBelow(number) <==> NegativeStar(t, s.next, env) && !AllNines(t)))
  {
    hide PrecNumber, AfterPrec, NegativeStar, AllNines;
    PrecisionMeaning(s, t, env);
    NegativeNumber(t, s.next, env);
  }

  /** The argument a directive converts comes behind those of its width and precision. */
  function ArgumentAt(item: Item, next: nat): nat
    requires item.Directive?
  {
    next + Stars(item.width) + if item.dot then Stars(item.prec) else 0
  }

  /** The options of a directive, told from its text and arguments. */
  lemma SettingsMeaning(item: Item, env: Env, next: nat)
    requires item.Directive?
    ensures var s := SettingsOf(item, env, next);
            && s.flags == FlagsOf(item.flags).(minus := '-' in item.flags || AnyNegative(item.width, next, env))
            && s.width == ToInt(WidthNumber(item.width, next, env))
            && s.prec == (if item.dot then ToInt(PrecNumber(item.prec, next + Stars(item.width), env)) else -1)
            && s.rank == RankOf(item.mods) && s.next == ArgumentAt(item, next)
  {
    hide ToInt, PrecNumber, WidthNumber, AnyNegative;
    var start := Settings(FlagsOf(item.flags), 0, -1, RANK_INT, next);
    WidthMeaning(start, item.width, env);
    if item.dot {
      PrecisionMeaning(AfterWidth(start, item.width, env).(prec := 0), item.prec, env);
    }
  }

  lemma OneItem(item: Item, env: Env, next: nat)
    ensures Renderable([item], env, next) == ItemSupported(item, env, next)
  {
    assert [item][1..] == [];
  }

  /** A string directive whose argument has a length that is an int is without meaning exactly
      when the number of its precision wraps below -1; longer arguments are left out. */
  lemma StringDirectiveBreaks(item: Item, env: Env, next: nat)
    requires item.Directive? && IsStringConv(item.conv)
    ensures !Renderable([item], env, next)
            <==> || (item.dot && WrapsBelow(PrecNumber(item.prec, next + Stars(item.width), env)))
                 || |StringArgument(item.conv, env.word(ArgumentAt(item, next)), env)| >= INT_LIMIT
  {
    hide PrecNumber, StringArgument, SettingsOf, ArgumentAt;
    OneItem(item, env, next);
    SettingsMeaning(item, env, next);
  }

  /** "%.*5s" with precision argument -1 has no meaning. */
  lemma BrokenPrecisionExists(env: Env)
    requires env.word(0) == 0xFFFF_FFFF
    ensures !Renderable([Directive("", "", true, "*5", "", 's')], env, 0)
  {
    assert "*5"[..1] == "*" && "*"[..0] == "" && "*5"[1] == '5' && "*"[0] == '*';
    assert Stars("*5") == Stars("*") == 1;
    ExtendedSnoc(-1, "*5");
    ExtendedSnoc(-1, "*");
    StringDirectiveBreaks(Directive("", "", true, "*5", "", 's'), env, 0);
  }

  // ----- canonical directives

  function Mark(on: bool, c: char): string {
    if on then [c] else ""
  }

  function FlagText(f: Flags): string {
    Mark(f.minus, '-') + (Mark(f.plus, '+') + (Mark(f.tick, '\'') + (Mark(f.space, ' ')
    + (Mark(f.hash, '#') + Mark(f.zero, '0')))))
  }

  function RankText(rank: int): string {
    if rank == RANK_CHAR then "hh" else if rank == RANK_SHORT then "h"
    else if rank == RANK_LONG then "l" else if rank == RANK_LONGLONG then "ll" else ""
  }

  /** The usual way to write a directive with these options; prec -1 means none. */
  function Canonical(f: Flags, width: nat, prec: int, rank: int, conv: char): Item {
    Directive(FlagText(f), Numeral(width, 10, false), prec >= 0,
              if prec >= 0 then Numeral(prec, 10, false) else "", RankText(rank), conv)
  }

  lemma {:induction false} NumeralCounts(v: nat)
    ensures AllCounts(Numeral(v, 10, false))
    ensures v > 0 ==> Numeral(v, 10, false)[0] != '0'
  {
    if v > 0 {
      NumeralCounts(v / 10);
      DecimalDigit(v % 10);
    }
  }

  lemma DecimalDigit(d: nat)
    requires d < 10
    ensures IsDecimal(DigitChar(d, false)) && DecimalValue(DigitChar(d, false)) == d
  {
    DigitCharIsDigit(d, false);
    assert DigitChar(d, false) == ['0', '1', '2', '3', '4', '5', '6', '7', '8', '9'][d];
  }

  /** A numeral is all decimal digits, so as a width or precision it is one number without stars. */
  lemma {:induction false} NumeralIsSuffix(v: nat)
    ensures var t := Numeral(v, 10, false); DecimalSuffix(t) == |t| && Stars(t) == 0
  {
    if v > 0 {
      NumeralIsSuffix(v / 10);
      DecimalDigit(v % 10);
      var t := Numeral(v, 10, false);
      assert t[..|t| - 1] == Numeral(v / 10, 10, false);
    }
  }

  lemma NumeralNumber(v: nat, next: nat, env: Env)
    ensures var t := Numeral(v, 10, false);
            && PrecNumber(t, next, env) == WidthNumber(t, next, env) == v
            && Stars(t) == 0 && !AnyNegative(t, next, env)
  {
    var t := Numeral(v, 10, false);
    NumeralIsSuffix(v);
    ReadNumeral(v, 10, false);
    assert t[0..] == t;
  }

  lemma NumeralWidth(s: Settings, v: nat, env: Env)
    requires s.width == 0
    ensures AfterWidth(s, Numeral(v, 10, false), env) == s.(width := ToInt(v))
  {
    hide ToInt, Numeral, AfterWidth, WidthNumber, PrecNumber, AnyNegative, Stars;
    NumeralNumber(v, s.next, env);
    WidthMeaning(s, Numeral(v, 10, false), env);
  }

  lemma NumeralPrec(s: Settings, v: nat, env: Env)
    requires s.prec == 0
    ensures AfterPrec(s, Numeral(v, 10, false), env) == s.(prec := ToInt(v))
  {
    hide ToInt, Numeral, AfterPrec, WidthNumber, PrecNumber, AnyNegative, Stars;
    NumeralNumber(v, s.next, env);
    PrecisionMeaning(s, Numeral(v, 10, false), env);
  }

  lemma RankTextInverse(rank: int)
    requires RANK_CHAR <= rank <= RANK_LONGLONG
    ensures RankOf(RankText(rank)) == rank && AllModifiers(RankText(rank))
  {
    assert "h"[..0] == "" && "hh"[..1] == "h" && "l"[..0] == "" && "ll"[..1] == "l";
  }

  lemma MarkFirst(on: bool, c: char, rest: string, d: char)
    ensures d in Mark(on, c) + rest <==> (on && d == c) || d in rest
  {
  }

  lemma InFlagText(f: Flags, d: char)
    ensures d in FlagText(f) <==>
      || (f.minus && d == '-') || (f.plus && d == '+') || (f.tick && d == '\'')
      || (f.space && d == ' ') || (f.hash && d == '#') || (f.zero && d == '0')
  {
    var zero := Mark(f.zero, '0');
    var hash := Mark(f.hash, '#') + zero;
    var space := Mark(f.space, ' ') + hash;
    var tick := Mark(f.tick, '\'') + space;
    MarkFirst(f.hash, '#', zero, d);
    MarkFirst(f.space, ' ', hash, d);
    MarkFirst(f.tick, '\'', space, d);
    MarkFirst(f.plus, '+', tick, d);
    MarkFirst(f.minus, '-', Mark(f.plus, '+') + tick, d);
  }

  lemma FlagTextInverse(f: Flags)
    requires !f.signed && !f.upper
    ensures FlagsOf(FlagText(f)) == f && AllFlags(FlagText(f))
  {
    forall d
      ensures d in FlagText(f) <==>
        || (f.minus && d == '-') || (f.plus && d == '+') || (f.tick && d == '\'')
        || (f.space && d == ' ') || (f.hash && d == '#') || (f.zero && d == '0')
    {
      InFlagText(f, d);
    }
    var t := FlagText(f);
    forall i | 0 <= i < |t|
      ensures IsFlag(t[i])
    {
      assert t[i] in t;
    }
  }

  lemma CanonicalSettings(f: Flags, width: nat, prec: int, rank: int, conv: char, env: Env, next: nat)
    requires !f.signed && !f.upper && prec >= -1 && RANK_CHAR <= rank <= RANK_LONGLONG
    ensures SettingsOf(Canonical(f, width, prec, rank, conv), env, next)
            == Settings(f, ToInt(width), ToInt(prec), rank, next)
  {
    hide ToInt, FlagsOf, FlagText, RankOf, RankText, Numeral;
    IntIsInt(-1);
    RankTextInverse(rank);
    FlagTextInverse(f);
    NumeralWidth(Settings(f, 0, -1, RANK_INT, next), width, env);
    if prec >= 0 {
      NumeralPrec(Settings(f, ToInt(width), 0, RANK_INT, next), prec, env);
    }
  }

  lemma CanonicalWellFormed(f: Flags, width: nat, prec: int, rank: int, conv: char)
    requires !f.signed && !f.upper
    requires RANK_CHAR <= rank <= RANK_LONGLONG
    requires !IsModifier(conv) && !IsFlag(conv) && !IsCount(conv) && conv != '.'
    ensures WellFormed(Canonical(f, width, prec, rank, conv))
  {
    NumeralCounts(width);
    NumeralCounts(Max(prec, 0));
    RankTextInverse(rank);
    FlagTextInverse(f);
    assert RankText(rank) == "" || RankText(rank) != "";
  }

  /** Writing options as a canonical directive and reading the directive recovers the options as
      ints, so exactly when they are ints, and the parser takes just the text of the directive. */
  lemma CanonicalRoundTrip(f: Flags, width: nat, prec: int, rank: int, conv: char, rest: string, env: Env, next: nat)
    requires !f.signed && !f.upper && prec >= -1 && RANK_CHAR <= rank <= RANK_LONGLONG
    requires !IsModifier(conv) && !IsFlag(conv) && !IsCount(conv) && conv != '.'
    ensures var item := Canonical(f, width, prec, rank, conv);
            && Parse(WriteItem(item) + rest) == [item] + Parse(rest)
            && SettingsOf(item, env, next) == Settings(f, ToInt(width), ToInt(prec), rank, next)
            && (SettingsOf(item, env, next).width == width <==> width < INT_LIMIT)
            && (SettingsOf(item, env, next).prec == prec <==> prec < INT_LIMIT)
  {
    hide SettingsOf, Canonical, ToInt, Parse, WriteItem, WellFormed;
    IntExactly(width);
    IntExactly(prec);
    CanonicalSettings(f, width, prec, rank, conv, env, next);
    CanonicalWellFormed(f, width, prec, rank, conv);
    ParseItem(Canonical(f, width, prec, rank, conv), rest);
  }

  /** Only flag characters and negative widths change the flags before the conversion. */
  lemma OptionsUnsigned(item: Item, env: Env, next: nat)
    requires item.Directive?
    ensures !SettingsOf(item, env, next).flags.signed && !SettingsOf(item, env, next).flags.upper
  {
    hide SettingsOf;
    SettingsMeaning(item, env, next);
  }

  /** The printer is proved for an integer directive exactly when its digits, ticks, sign and prefix
      can be counted in an int. */
  lemma IntegerDirectiveFits(item: Item, env: Env, next: nat)
    requires item.Directive? && IsIntegerConv(item.conv)
    ensures var s, conv := SettingsOf(item, env, next), item.conv;
            var flags, base := IntegerFlags(conv, s.flags), BaseOf(conv);
            var val := IntegerValue(conv, env.word(s.next), ClampRank(s.rank));
            var d := |DigitText(Magnitude(val, flags), flags, base, if IsPointerConv(conv) then 8 else s.prec)|;
            Renderable([item], env, next)
            <==> d + (if flags.tick then (d - 1) / TickDistance(base) else 0)
                 + |Sign(val, flags)| + |Prefix(flags, base)|
                 < INT_LIMIT
  {
    hide SettingsOf, Field, DigitText, Magnitude, Sign, Prefix;
    OneItem(item, env, next);
    var s, conv := SettingsOf(item, env, next), item.conv;
    FieldMeasure(IntegerValue(conv, env.word(s.next), ClampRank(s.rank)), IntegerFlags(conv, s.flags),
                BaseOf(conv), s.width, if IsPointerConv(conv) then 8 else s.prec);
  }

  /** Cutting an argument to its rank keeps it modulo the range of the rank, and brings it into
      the signed or the unsigned range. */
  lemma CutMeaning(w: Word, rank: int)
    requires -2 <= rank <= 2
    ensures var v := Signed32(CutSigned(w, rank));
            && (rank == -2 ==> -0x80 <= v < 0x80 && (w - v) % 0x100 == 0)
            && (rank == -1 ==> -0x8000 <= v < 0x8000 && (w - v) % 0x1_0000 == 0)
            && (rank >= 0 ==> -0x8000_0000 <= v < 0x8000_0000 && (w - v) % 0x1_0000_0000 == 0)
    ensures var v := CutUnsigned(w, rank);
            && (rank == -2 ==> 0 <= v < 0x100 && (w - v) % 0x100 == 0)
            && (rank == -1 ==> 0 <= v < 0x1_0000 && (w - v) % 0x1_0000 == 0)
            && (rank >= 0 ==> v == w)
  {
    var m := if rank == -2 then 0x100 else if rank == -1 then 0x1_0000 else 0x1_0000_0000;
    DivUnique(w - w % m, m, w / m, 0);
    DivUnique(w - w % m + m, m, w / m + 1, 0);
  }

  /** A string field is the argument cut to the precision, at the side of a field of at least the
      width that the flags say, and padding everywhere else. */
  predicate ShowsCut(t: string, arg: string, minus: bool, zero: bool, width: int, prec: int)
    requires prec >= -1
  {
    var n := if prec == -1 then |arg| else Min(prec, |arg|);
    var at := if minus then 0 else |t| - n;
    && |t| == Max(width, n) && 0 <= at <= at + n <= |t| && t[at..at + n] == arg[..n]
    && forall i :: 0 <= i < |t| && !(at <= i < at + n) ==> t[i] == if zero && !minus then '0' else ' '
  }

  lemma StringFieldShowsCut(arg: string, f: Flags, width: int, prec: int)
    requires prec >= -1
    ensures ShowsCut(StringField(arg, f, width, prec), arg, f.minus, f.zero, width, prec)
  {
    var n := if prec == -1 then |arg| else Min(prec, |arg|);
    var cut, pad := arg[..n], Fill(if f.zero && !f.minus then '0' else ' ', width - n);
    CutIs(arg, prec);
    if f.minus {
      SliceConcat(cut, pad);
    } else {
      SliceConcat(pad, cut);
    }
  }

  lemma CutIs(arg: string, prec: int)
    requires prec >= -1
    ensures (if 0 <= prec < |arg| then arg[..prec] else arg) == arg[..if prec == -1 then |arg| else Min(prec, |arg|)]
  {
    assert arg[..|arg|] == arg;
  }

  lemma SliceConcat(a: string, b: string)
    ensures (a + b)[0..|a|] == a && (a + b)[|a|..|a + b|] == b
  {
  }

  // ----- where 32 bits end

  lemma MinusTen()
    ensures Numeral(4294967286, 10, false) == "4294967286"
  {
    assert Numeral(42, 10, false) == "42" && Numeral(429, 10, false) == "429" && Numeral(4294, 10, false) == "4294";
    assert Numeral(42949, 10, false) == "42949" && Numeral(429496, 10, false) == "429496";
    assert Numeral(4294967, 10, false) == "4294967" && Numeral(42949672, 10, false) == "42949672";
    assert Numeral(429496728, 10, false) == "429496728";
  }

  /** A literal precision that does not fit an int breaks a string directive as well: "%.4294967286s"
      asks for -10 characters. */
  lemma LongPrecisionBreaks(env: Env, next: nat)
    ensures var item := Directive("", "", true, "4294967286", "", 's');
            SettingsOf(item, env, next).prec == -10 && !Renderable([item], env, next)
  {
    var item := Canonical(NO_FLAGS, 0, 4294967286, RANK_INT, 's');
    MinusTen();
    CanonicalSettings(NO_FLAGS, 0, 4294967286, RANK_INT, 's', env, next);
    OneItem(item, env, next);
  }
}
