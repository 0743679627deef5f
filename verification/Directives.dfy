/** The syntax of format strings: literals and conversion directives. */
module Directives {

  datatype Item =
    | Literal(c: char)
    | Directive(flags: string, width: string, dot: bool, prec: string, mods: string, conv: char)

  predicate IsFlag(c: char) {
    c == '-' || c == '+' || c == '\'' || c == ' ' || c == '#' || c == '0'
  }

  predicate IsDecimal(c: char) {
    '0' <= c <= '9'
  }

  /** Characters of a width or a precision. */
  predicate IsCount(c: char) {
    IsDecimal(c) || c == '*'
  }

  predicate IsModifier(c: char) {
    c == 'h' || c == 'l' || c == 'j' || c == 'z' || c == 't' || c == 'L' || c == 'q'
  }

  // ----- parsing; an unfinished directive at the end of the format yields no item

  function Parse(s: string): seq<Item>
    decreases |s|, 4
  {
    if s == "" then []
    else if s[0] == '%' then ParseFlags(s[1..], "")
    else [Literal(s[0])] + Parse(s[1..])
  }

  function ParseFlags(s: string, flags: string): seq<Item>
    decreases |s|, 3
  {
    if s == "" then []
    else if IsFlag(s[0]) then ParseFlags(s[1..], flags + [s[0]])
    else ParseWidth(s, flags, "")
  }

  function ParseWidth(s: string, flags: string, width: string): seq<Item>
    decreases |s|, 2
  {
    if s == "" then []
    else if IsCount(s[0]) then ParseWidth(s[1..], flags, width + [s[0]])
    else if s[0] == '.' then ParsePrec(s[1..], flags, width, "")
    else ParseModifiers(s, flags, width, false, "", "")
  }

  function ParsePrec(s: string, flags: string, width: string, prec: string): seq<Item>
    decreases |s|, 1
  {
    if s == "" then []
    else if IsCount(s[0]) then ParsePrec(s[1..], flags, width, prec + [s[0]])
    else ParseModifiers(s, flags, width, true, prec, "")
  }

  function ParseModifiers(s: string, flags: string, width: string, dot: bool, prec: string, mods: string): seq<Item>
    decreases |s|, 0
  {
    if s == "" then []
    else if IsModifier(s[0]) then ParseModifiers(s[1..], flags, width, dot, prec, mods + [s[0]])
    else [Directive(flags, width, dot, prec, mods, s[0])] + Parse(s[1..])
  }

  // ----- writing

  function Point(dot: bool): string {
    if dot then "." else ""
  }

  function WriteItem(item: Item): string {
    match item
    case Literal(c) => [c]
    case Directive(flags, width, dot, prec, mods, conv) =>
      "%" + (flags + (width + (Point(dot) + (prec + (mods + [conv])))))
  }

  function Write(items: seq<Item>): string {
    if items == [] then "" else WriteItem(items[0]) + Write(items[1..])
  }

  predicate AllFlags(s: string) {
    forall i :: 0 <= i < |s| ==> IsFlag(s[i])
  }

  predicate AllCounts(s: string) {
    forall i :: 0 <= i < |s| ==> IsCount(s[i])
  }

  predicate AllModifiers(s: string) {
    forall i :: 0 <= i < |s| ==> IsModifier(s[i])
  }

  /** Each part holds only its own characters, and no part starts with a character that
      an earlier part would have taken. */
  predicate WellFormed(item: Item) {
    match item
    case Literal(c) => c != '%'
    case Directive(flags, width, dot, prec, mods, conv) =>
      && AllFlags(flags) && AllCounts(width) && AllCounts(prec) && AllModifiers(mods)
      && (width != "" ==> width[0] != '0')
      && (!dot ==> prec == "")
      && !IsModifier(conv)
      && (mods == "" ==> !IsCount(conv) && (!dot ==> conv != '.' && (width == "" ==> !IsFlag(conv))))
  }

  /** Text that starts a directive and ends before its conversion character. */
  ghost predicate Unfinished(t: string) {
    exists flags, width, dot, prec, mods :: UnfinishedParts(flags, width, dot, prec, mods, t)
  }

  predicate UnfinishedParts(flags: string, width: string, dot: bool, prec: string, mods: string, t: string) {
    && AllFlags(flags) && AllCounts(width) && AllCounts(prec) && AllModifiers(mods)
    && (!dot ==> prec == "")
    && t == Opening(flags, width, dot, prec, mods)
  }

  function Opening(flags: string, width: string, dot: bool, prec: string, mods: string): string {
    "%" + flags + width + Point(dot) + prec + mods
  }

  // ----- parsing inverts writing

  lemma {:induction false} ParseFlagsOf(rest: string, flags: string, t: string)
    requires AllFlags(flags)
    ensures ParseFlags(flags + rest, t) == ParseFlags(rest, t + flags)
  {
    if flags == "" {
      assert flags + rest == rest && t + flags == t;
    } else {
      assert (flags + rest)[1..] == flags[1..] + rest;
      assert t + [flags[0]] + flags[1..] == t + flags;
      ParseFlagsOf(rest, flags[1..], t + [flags[0]]);
    }
  }

  lemma {:induction false} ParseWidthOf(rest: string, flags: string, width: string, t: string)
    requires AllCounts(width)
    ensures ParseWidth(width + rest, flags, t) == ParseWidth(rest, flags, t + width)
  {
    if width == "" {
      assert width + rest == rest && t + width == t;
    } else {
      assert (width + rest)[1..] == width[1..] + rest;
      assert t + [width[0]] + width[1..] == t + width;
      ParseWidthOf(rest, flags, width[1..], t + [width[0]]);
    }
  }

  lemma {:induction false} ParsePrecOf(rest: string, flags: string, width: string, prec: string, t: string)
    requires AllCounts(prec)
    ensures ParsePrec(prec + rest, flags, width, t) == ParsePrec(rest, flags, width, t + prec)
  {
    if prec == "" {
      assert prec + rest == rest && t + prec == t;
    } else {
      assert (prec + rest)[1..] == prec[1..] + rest;
      assert t + [prec[0]] + prec[1..] == t + prec;
      ParsePrecOf(rest, flags, width, prec[1..], t + [prec[0]]);
    }
  }

  lemma {:induction false} ParseModifiersOf(
      rest: string, flags: string, width: string, dot: bool, prec: string, mods: string, t: string)
    requires AllModifiers(mods)
    ensures ParseModifiers(mods + rest, flags, width, dot, prec, t)
            == ParseModifiers(rest, flags, width, dot, prec, t + mods)
  {
    if mods == "" {
      assert mods + rest == rest && t + mods == t;
    } else {
      assert (mods + rest)[1..] == mods[1..] + rest;
      assert t + [mods[0]] + mods[1..] == t + mods;
      ParseModifiersOf(rest, flags, width, dot, prec, mods[1..], t + [mods[0]]);
    }
  }

  /** What follows the precision cannot be taken for a part of it or of the width. */
  lemma AfterPrecision(item: Item, rest: string)
    requires item.Directive? && WellFormed(item)
    ensures var t := item.mods + ([item.conv] + rest);
            && t != "" && !IsCount(t[0])
            && (!item.dot ==> t[0] != '.')
            && (!item.dot && item.width == "" ==> !IsFlag(t[0]))
  {
    var t := item.mods + ([item.conv] + rest);
    if item.mods == "" {
      assert t[0] == item.conv;
      assert !item.dot && item.width == "" ==> !IsFlag(item.conv);
    } else {
      assert t[0] == item.mods[0] && IsModifier(item.mods[0]);
      assert !IsFlag(item.mods[0]);
    }
  }

  lemma ParseFromModifiers(item: Item, rest: string)
    requires item.Directive? && WellFormed(item)
    ensures ParseModifiers(item.mods + ([item.conv] + rest), item.flags, item.width, item.dot, item.prec, "")
            == [item] + Parse(rest)
  {
    ParseModifiersOf([item.conv] + rest, item.flags, item.width, item.dot, item.prec, item.mods, "");
    assert "" + item.mods == item.mods;
    assert ([item.conv] + rest)[1..] == rest;
  }

  lemma ParseFromWidth(item: Item, rest: string)
    requires item.Directive? && WellFormed(item)
    ensures var tail := item.mods + ([item.conv] + rest);
            ParseWidth(item.width + (Point(item.dot) + (item.prec + tail)), item.flags, "") == [item] + Parse(rest)
  {
    var tail := item.mods + ([item.conv] + rest);
    var afterWidth := Point(item.dot) + (item.prec + tail);
    ParseWidthOf(afterWidth, item.flags, item.width, "");
    assert "" + item.width == item.width;
    AfterPrecision(item, rest);
    ParseFromModifiers(item, rest);
    if item.dot {
      assert afterWidth[1..] == item.prec + tail;
      ParsePrecOf(tail, item.flags, item.width, item.prec, "");
      assert "" + item.prec == item.prec;
    } else {
      assert afterWidth == tail;
    }
  }

  lemma ParseFromFlags(item: Item, rest: string)
    requires item.Directive? && WellFormed(item)
    ensures ParseFlags(item.flags + (item.width + (Point(item.dot) + (item.prec +
                       (item.mods + ([item.conv] + rest))))), "")
            == [item] + Parse(rest)
  {
    var tail := item.mods + ([item.conv] + rest);
    var afterFlags := item.width + (Point(item.dot) + (item.prec + tail));
    ParseFlagsOf(afterFlags, item.flags, "");
    assert "" + item.flags == item.flags;
    assert afterFlags != "" && !IsFlag(afterFlags[0]) by {
      AfterPrecision(item, rest);
      if item.width == "" && !item.dot {
        assert afterFlags == tail;
      }
    }
    ParseFromWidth(item, rest);
  }

  lemma WriteDirective(item: Item, rest: string)
    requires item.Directive?
    ensures WriteItem(item) + rest
            == ['%'] + (item.flags + (item.width + (Point(item.dot) + (item.prec +
                        (item.mods + ([item.conv] + rest))))))
  {
  }

  /** Driving the parser over one written item recovers the item and uses up exactly its text. */
  lemma ParseItem(item: Item, rest: string)
    requires WellFormed(item)
    ensures Parse(WriteItem(item) + rest) == [item] + Parse(rest)
  {
    if item.Literal? {
      assert (WriteItem(item) + rest)[1..] == rest;
    } else {
      ParseFromFlags(item, rest);
      WriteDirective(item, rest);
      ParsePercent(item.flags + (item.width + (Point(item.dot) + (item.prec + (item.mods + ([item.conv] + rest))))));
    }
  }

  lemma ParsePercent(s: string)
    ensures Parse(['%'] + s) == ParseFlags(s, "")
  {
    assert (['%'] + s)[1..] == s;
  }

  lemma WriteCons(first: Item, others: seq<Item>, rest: string)
    ensures Write([first] + others) + rest == WriteItem(first) + (Write(others) + rest)
  {
    assert ([first] + others)[1..] == others;
  }

  /** Parsing inverts writing, for every list of well-formed items and every continuation. */
  lemma {:induction false} ParseWrite(items: seq<Item>, rest: string)
    requires forall i :: 0 <= i < |items| ==> WellFormed(items[i])
    ensures Parse(Write(items) + rest) == items + Parse(rest)
  {
    hide Parse, WellFormed, WriteItem;
    if items == [] {
      assert Write(items) + rest == rest;
    } else {
      var first, others := items[0], items[1..];
      assert items == [first] + others;
      WriteCons(first, others, rest);
      ParseWrite(others, rest);
      ParseItem(first, Write(others) + rest);
    }
  }

  // ----- writing inverts parsing, up to an unfinished directive at the end

  ghost predicate Lexed(s: string, items: seq<Item>, tail: string) {
    s == Write(items) + tail && forall i :: 0 <= i < |items| ==> WellFormed(items[i])
  }

  ghost predicate Tail(tail: string) {
    tail == "" || Unfinished(tail)
  }

  lemma LexedCons(first: Item, s: string, items: seq<Item>, tail: string)
    requires Lexed(s, items, tail) && WellFormed(first)
    ensures Lexed(WriteItem(first) + s, [first] + items, tail)
  {
    WriteCons(first, items, tail);
  }

  lemma LexedNothing(flags: string, width: string, dot: bool, prec: string, mods: string, t: string)
    requires UnfinishedParts(flags, width, dot, prec, mods, t)
    ensures Lexed(t, [], t) && Tail(t)
  {
  }

  lemma CloseItem(item: Item, s: string)
    requires item.Directive? && s != "" && s[0] == item.conv
    ensures Opening(item.flags, item.width, item.dot, item.prec, item.mods) + s == WriteItem(item) + s[1..]
  {
    assert s == [item.conv] + s[1..];
  }

  /** Every format is the text of its items followed by nothing or by an unfinished directive. */
  lemma {:induction false} WriteParse(s: string) returns (tail: string)
    ensures Lexed(s, Parse(s), tail) && Tail(tail)
    decreases |s|, 4
  {
    if s == "" {
      tail := "";
    } else if s[0] == '%' {
      tail := WriteParseFlags(s[1..], "");
      assert s == Opening("", "", false, "", "") + s[1..];
    } else {
      tail := WriteParse(s[1..]);
      LexedCons(Literal(s[0]), s[1..], Parse(s[1..]), tail);
      assert s == [s[0]] + s[1..];
    }
  }

  lemma {:induction false} WriteParseFlags(s: string, flags: string) returns (tail: string)
    requires AllFlags(flags)
    ensures Lexed(Opening(flags, "", false, "", "") + s, ParseFlags(s, flags), tail) && Tail(tail)
    decreases |s|, 3
  {
    hide Write, WriteItem;
    var open := Opening(flags, "", false, "", "");
    if s == "" {
      tail := open + s;
      assert tail == open;
      LexedNothing(flags, "", false, "", "", tail);
    } else if IsFlag(s[0]) {
      tail := WriteParseFlags(s[1..], flags + [s[0]]);
      assert open + s == Opening(flags + [s[0]], "", false, "", "") + s[1..];
    } else {
      tail := WriteParseWidth(s, flags, "");
    }
  }

  lemma {:induction false} WriteParseWidth(s: string, flags: string, width: string) returns (tail: string)
    requires AllFlags(flags) && AllCounts(width)
    requires if width == "" then s == "" || !IsFlag(s[0]) else width[0] != '0'
    ensures Lexed(Opening(flags, width, false, "", "") + s, ParseWidth(s, flags, width), tail) && Tail(tail)
    decreases |s|, 2
  {
    hide Write, WriteItem;
    var open := Opening(flags, width, false, "", "");
    if s == "" {
      tail := open + s;
      assert tail == open;
      LexedNothing(flags, width, false, "", "", tail);
    } else if IsCount(s[0]) {
      tail := WriteParseWidth(s[1..], flags, width + [s[0]]);
      assert open + s == Opening(flags, width + [s[0]], false, "", "") + s[1..];
    } else if s[0] == '.' {
      tail := WriteParsePrec(s[1..], flags, width, "");
      assert open + s == Opening(flags, width, true, "", "") + s[1..];
    } else {
      tail := WriteParseModifiers(s, flags, width, false, "", "");
    }
  }

  lemma {:induction false} WriteParsePrec(s: string, flags: string, width: string, prec: string) returns (tail: string)
    requires AllFlags(flags) && AllCounts(width) && AllCounts(prec)
    requires width != "" ==> width[0] != '0'
    ensures Lexed(Opening(flags, width, true, prec, "") + s, ParsePrec(s, flags, width, prec), tail) && Tail(tail)
    decreases |s|, 1
  {
    hide Write, WriteItem;
    var open := Opening(flags, width, true, prec, "");
    if s == "" {
      tail := open + s;
      assert tail == open;
      LexedNothing(flags, width, true, prec, "", tail);
    } else if IsCount(s[0]) {
      tail := WriteParsePrec(s[1..], flags, width, prec + [s[0]]);
      assert open + s == Opening(flags, width, true, prec + [s[0]], "") + s[1..];
    } else {
      tail := WriteParseModifiers(s, flags, width, true, prec, "");
    }
  }

  lemma {:induction false} WriteParseModifiers(
      s: string, flags: string, width: string, dot: bool, prec: string, mods: string) returns (tail: string)
    requires AllFlags(flags) && AllCounts(width) && AllCounts(prec) && AllModifiers(mods)
    requires (width != "" ==> width[0] != '0') && (!dot ==> prec == "")
    requires s != "" && mods == "" ==>
      !IsCount(s[0]) && (!dot ==> s[0] != '.' && (width == "" ==> !IsFlag(s[0])))
    ensures Lexed(Opening(flags, width, dot, prec, mods) + s, ParseModifiers(s, flags, width, dot, prec, mods), tail)
    ensures Tail(tail)
    decreases |s|, 0
  {
    hide Write, WriteItem;
    var open := Opening(flags, width, dot, prec, mods);
    if s == "" {
      tail := open + s;
      assert tail == open;
      LexedNothing(flags, width, dot, prec, mods, tail);
    } else if IsModifier(s[0]) {
      tail := WriteParseModifiers(s[1..], flags, width, dot, prec, mods + [s[0]]);
      assert open + s == Opening(flags, width, dot, prec, mods + [s[0]]) + s[1..];
    } else {
      tail := WriteParse(s[1..]);
      var item := Directive(flags, width, dot, prec, mods, s[0]);
      LexedCons(item, s[1..], Parse(s[1..]), tail);
      CloseItem(item, s);
    }
  }
}
