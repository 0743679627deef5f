/** Formats whose output is longer than a word can count, and when they write outside their buffer. */
module LongOutputs {
  import opened Machine
  import opened Arithmetic
  import opened Numerals
  import opened IntField
  import opened Directives
  import opened Rendering
  import opened BoundedBuffer
  import opened Overruns
  import opened Printer

  // ----- formats of one kind

  lemma {:induction false} AllOnes(items: seq<Item>, env: Env, next: nat)
    requires forall k :: 0 <= k < |items| ==> !IsField(items[k])
    ensures SinglesOnly(PutsOf(items, env, next))
  {
    hide ItemEffect, IsField;
    if items != [] {
      AllOnes(items[1..], env, ItemEffect(items[0], env, next, 0).next);
    }
  }

  lemma {:induction false} AllFields(items: seq<Item>, env: Env, next: nat)
    requires forall k :: 0 <= k < |items| ==> IsField(items[k])
    ensures FieldsOnly(PutsOf(items, env, next))
  {
    hide ItemEffect, IsField;
    if items != [] {
      AllFields(items[1..], env, ItemEffect(items[0], env, next, 0).next);
    }
  }

  /** A format without integer directives writes outside a buffer exactly when its output has 2^32
      characters, unless the buffer has no cells. */
  lemma PlainLeavesIff(items: seq<Item>, env: Env, n: Word)
    requires forall k :: 0 <= k < |items| ==> !IsField(items[k])
    ensures LeavesBuffer(n, PutsOf(items, env, 0)) <==> n > 0 && |Render(items, env, 0, 0).text| >= TWO_32
  {
    hide PutsOf, Render, LeavesBuffer, SinglesOnly;
    var puts := PutsOf(items, env, 0);
    AllOnes(items, env, 0);
    SinglesOverrunIff(n, puts);
    SinglesDropped(n, puts);
    CountIsLength(puts);
    PutsText(items, env, 0, 0);
  }

  /** A format of integer directives only never does, whatever its length. */
  lemma FieldsNeverLeave(items: seq<Item>, env: Env, n: Word)
    requires forall k :: 0 <= k < |items| ==> IsField(items[k])
    ensures !LeavesBuffer(n, PutsOf(items, env, 0))
  {
    AllFields(items, env, 0);
    FieldsStayInside(n, PutsOf(items, env, 0));
  }

  /** An output that a word can count never does. */
  lemma CountableNeverLeaves(items: seq<Item>, env: Env, n: Word)
    requires Countable(Render(items, env, 0, 0).text)
    ensures !LeavesBuffer(n, PutsOf(items, env, 0))
  {
    PutsText(items, env, 0, 0);
    CountIsLength(PutsOf(items, env, 0));
    ShortStaysInside(n, PutsOf(items, env, 0));
  }

  // ----- two long runs of blanks

  lemma LargestInt()
    ensures Numeral(2147483647, 10, false) == "2147483647"
    ensures Numeral(3, 10, false) == "3" && Numeral(5, 10, false) == "5"
  {
    assert Numeral(21, 10, false) == "21" && Numeral(2147, 10, false) == "2147";
    assert Numeral(214748, 10, false) == "214748";
    assert Numeral(21474836, 10, false) == "21474836";
  }

  function BlankField(width: nat): Item {
    Canonical(NO_FLAGS, width, -1, RANK_INT, 's')
  }

  function NumberField(width: nat): Item {
    Canonical(NO_FLAGS, width, -1, RANK_INT, 'd')
  }

  lemma WriteFields()
    ensures WriteItem(BlankField(INT_LIMIT - 1)) == "%2147483647s" && WellFormed(BlankField(INT_LIMIT - 1))
    ensures WriteItem(BlankField(3)) == "%3s" && WellFormed(BlankField(3))
    ensures WriteItem(NumberField(5)) == "%5d" && WellFormed(NumberField(5))
  {
    hide Numeral, WellFormed;
    CanonicalWellFormed(NO_FLAGS, INT_LIMIT - 1, -1, RANK_INT, 's');
    CanonicalWellFormed(NO_FLAGS, 3, -1, RANK_INT, 's');
    CanonicalWellFormed(NO_FLAGS, 5, -1, RANK_INT, 'd');
    LargestInt();
  }

  lemma ParseOne(item: Item, text: string)
    requires WellFormed(item) && WriteItem(item) == text
    ensures Parse(text) == [item]
  {
    hide WellFormed, WriteItem;
    ParseItem(item, "");
    assert text + "" == text && Parse("") == [];
  }

  lemma ParseLong(last: Item, text: string, format: string)
    requires WellFormed(last) && WriteItem(last) == text && format == "%2147483647s" + ("%2147483647s" + text)
    ensures Parse(format) == [BlankField(INT_LIMIT - 1), BlankField(INT_LIMIT - 1), last]
  {
    hide Parse, WellFormed, BlankField, WriteItem;
    var wide := BlankField(INT_LIMIT - 1);
    WriteFields();
    ParseOne(last, text);
    ParseItem(wide, "%2147483647s" + text);
    ParseItem(wide, text);
    assert [wide] + [last] == [wide, last] && [wide] + [wide, last] == [wide, wide, last];
  }

  lemma EmptyField(width: nat)
    ensures StringField("", NO_FLAGS, width, -1) == Fill(' ', width)
  {
    assert Fill(' ', width) + "" == Fill(' ', width);
  }

  /** The empty string at an address. */
  predicate EmptyAt(env: Env, next: nat) {
    env.word(next) != 0 && env.text(env.word(next)) == ""
  }

  lemma EmptyArgument(width: nat, env: Env, next: nat, count: nat)
    requires width < INT_LIMIT && EmptyAt(env, next)
    ensures var item := BlankField(width);
            && ItemEffect(item, env, next, count) == Effect(Fill(' ', width), [], next + 1)
            && ItemEffect(item, env, next, 0).next == next + 1 && ItemSupported(item, env, next)
            && !IsField(item)
  {
    hide SettingsOf, StringField, ToInt, FlagText, Numeral, RankText;
    IntIsInt(width);
    IntIsInt(-1);
    CanonicalSettings(NO_FLAGS, width, -1, RANK_INT, 's', env, next);
    EmptyField(width);
  }

  /** What blanks and a last item put and print. */
  lemma BlankFirst(width: nat, others: seq<Item>, env: Env, next: nat, count: nat)
    requires width < INT_LIMIT && EmptyAt(env, next)
    ensures var items, rest := [BlankField(width)] + others, Render(others, env, next + 1, count + width);
            && |Render(items, env, next, count).text| == width + |rest.text|
            && (Renderable(items, env, next) <==> Renderable(others, env, next + 1))
            && PutsOf(items, env, next) == Ones(Fill(' ', width)) + PutsOf(others, env, next + 1)
  {
    hide BlankField, Render, PutsOf, Renderable, ItemEffect, ItemSupported, EmptyAt, IsField, Ones;
    EmptyArgument(width, env, next, count);
    RenderCons(BlankField(width), others, env, next, count);
    PutsCons(BlankField(width), others, env, next, count);
    SupportedFirst(BlankField(width), others, env, next);
  }

  lemma SupportedFirst(first: Item, others: seq<Item>, env: Env, next: nat)
    requires ItemSupported(first, env, next)
    ensures Renderable([first] + others, env, next) <==> Renderable(others, env, ItemEffect(first, env, next, 0).next)
  {
    hide ItemSupported, ItemEffect;
    assert ([first] + others)[1..] == others;
  }

  lemma BlanksJoin(a: nat, b: nat, puts: seq<Put>)
    ensures Ones(Fill(' ', a)) + (Ones(Fill(' ', b)) + puts) == Ones(Fill(' ', a + b)) + puts
  {
    assert Fill(' ', a) + Fill(' ', b) == Fill(' ', a + b);
    OnesConcat(Fill(' ', a), Fill(' ', b));
    AppendAssoc(Ones(Fill(' ', a)), Ones(Fill(' ', b)), puts);
  }

  lemma LongRun(last: Item, env: Env)
    requires EmptyAt(env, 0) && EmptyAt(env, 1)
    ensures var items := [BlankField(INT_LIMIT - 1), BlankField(INT_LIMIT - 1), last];
            && |Render(items, env, 0, 0).text| == TWO_32 - 2 + |Render([last], env, 2, TWO_32 - 2).text|
            && (Renderable(items, env, 0) <==> Renderable([last], env, 2))
            && PutsOf(items, env, 0) == Ones(Fill(' ', TWO_32 - 2)) + PutsOf([last], env, 2)
  {
    hide Render, Renderable, PutsOf, BlankField, EmptyAt, Ones;
    var wide := BlankField(INT_LIMIT - 1);
    BlankFirst(INT_LIMIT - 1, [wide, last], env, 0, 0);
    BlankFirst(INT_LIMIT - 1, [last], env, 1, INT_LIMIT - 1);
    BlanksJoin(INT_LIMIT - 1, INT_LIMIT - 1, PutsOf([last], env, 2));
    assert [wide] + [last] == [wide, last] && [wide] + [wide, last] == [wide, wide, last];
  }

  // ----- a format that leaves its buffer

  lemma ParseBlanks()
    ensures Parse("%2147483647s%2147483647s%3s")
            == [BlankField(INT_LIMIT - 1), BlankField(INT_LIMIT - 1), BlankField(3)]
  {
    hide Parse, WellFormed, BlankField, WriteItem;
    WriteFields();
    ParseLong(BlankField(3), "%3s", "%2147483647s%2147483647s%3s");
  }

  /** Each width of this format fits an int, but the count of characters for empty arguments does
      not fit a word; every character is one of a run of blanks. */
  lemma CountOverflows(env: Env)
    requires forall i :: 0 <= i < 3 ==> EmptyAt(env, i)
    ensures var format := "%2147483647s%2147483647s%3s";
            && Renderable(Parse(format), env, 0) && |Printed(format, env).text| == TWO_32 + 1
            && PutsOf(Parse(format), env, 0) == Ones(Fill(' ', TWO_32 + 1))
  {
    hide Parse, Render, Renderable, PutsOf, BlankField, EmptyAt, Ones;
    ParseBlanks();
    LongRun(BlankField(3), env);
    BlankFirst(3, [], env, 2, TWO_32 - 2);
    NothingLeft(env, 3, TWO_32 + 1);
    BlanksJoin(TWO_32 - 2, 3, []);
    assert [BlankField(3)] + [] == [BlankField(3)];
    assert Ones(Fill(' ', TWO_32 + 1)) + [] == Ones(Fill(' ', TWO_32 + 1));
  }

  lemma NothingLeft(env: Env, next: nat, count: nat)
    ensures Render([], env, next, count) == Output("", []) && Renderable([], env, next) && PutsOf([], env, next) == []
  {
  }

  /** The count has come round to zero and the cursor stands behind the buffer: the blank after
      the first 2^32 goes there, and stays. */
  lemma BlankBehindBuffer(before: Memory, n: Word)
    requires n > 0
    ensures Final(before, n, Ones(Fill(' ', TWO_32 + 1)))[n] == ' '
  {
    hide Play;
    var start, blanks := Port(before, 0, 0), Fill(' ', TWO_32);
    assert Fill(' ', TWO_32 + 1) == blanks + [' '];
    PlaySnoc(start, n, blanks, ' ');
    Position(before, n, Ones(blanks));
    SinglesDropped(n, Ones(blanks));
    CursorIs(TWO_32, TWO_32 - n);
  }

  /** With any buffer of at least one cell this format writes into the cell behind it, and without
      cells it writes nothing. */
  lemma OverflowWritesBehind(env: Env, before: Memory, n: Word)
    requires forall i :: 0 <= i < 3 ==> EmptyAt(env, i)
    ensures var puts := PutsOf(Parse("%2147483647s%2147483647s%3s"), env, 0);
            && (LeavesBuffer(n, puts) <==> n > 0)
            && (n > 0 ==> Final(before, n, puts)[n] == ' ')
  {
    hide Parse, PutsOf, Final, LeavesBuffer, EmptyAt;
    CountOverflows(env);
    SinglesOverrunIff(n, Ones(Fill(' ', TWO_32 + 1)));
    if n > 0 {
      BlankBehindBuffer(before, n);
    }
  }

  // ----- a longer one that does not

  lemma ParseNumber()
    ensures Parse("%2147483647s%2147483647s%5d")
            == [BlankField(INT_LIMIT - 1), BlankField(INT_LIMIT - 1), NumberField(5)]
  {
    hide Parse, WellFormed, BlankField, NumberField, WriteItem;
    WriteFields();
    ParseLong(NumberField(5), "%5d", "%2147483647s%2147483647s%5d");
  }

  lemma FiveCells(env: Env, next: nat, count: nat) returns (field: string)
    requires env.word(next) == 0
    ensures ItemEffect(NumberField(5), env, next, count).text == field && |field| == 5
    ensures Renderable([NumberField(5)], env, next) && PutsOf([NumberField(5)], env, next) == [Whole(field)]
    ensures |Render([NumberField(5)], env, next, count).text| == 5
  {
    IntIsInt(5);
    IntIsInt(-1);
    CanonicalSettings(NO_FLAGS, 5, -1, RANK_INT, 'd', env, next);
    FieldMeasure(0, NO_FLAGS.(signed := true), 10, 5, -1);
    field := ItemEffect(NumberField(5), env, next, count).text;
  }

  /** The field carries the count past the start of the buffer: with 1 to 3 cells nothing outside is
      touched. With more the final NUL goes behind the buffer, until there is room for all the blanks. */
  lemma FieldCarriesCount(env: Env, n: Word)
    requires EmptyAt(env, 0) && EmptyAt(env, 1) && env.word(2) == 0
    ensures var format := "%2147483647s%2147483647s%5d";
            && Renderable(Parse(format), env, 0) && |Printed(format, env).text| == TWO_32 + 3
            && (LeavesBuffer(n, PutsOf(Parse(format), env, 0)) <==> 4 <= n < TWO_32 - 5)
  {
    hide Parse, Render, Renderable, PutsOf, BlankField, NumberField, EmptyAt, Ones, LeavesBuffer;
    ParseNumber();
    LongRun(NumberField(5), env);
    var field := FiveCells(env, 2, TWO_32 - 2);
    BlanksThenField(n, field);
  }

  lemma BlanksThenField(n: Word, field: string)
    requires |field| == 5
    ensures LeavesBuffer(n, Ones(Fill(' ', TWO_32 - 2)) + [Whole(field)]) <==> 4 <= n < TWO_32 - 5
  {
    var blanks := Ones(Fill(' ', TWO_32 - 2));
    SinglesDropped(n, blanks);
    ShortStaysInside(n, blanks);
    hide PutsOutside, Outside, Dropped, Count;
    FieldPutsNothing(n, blanks, field);
  }

  lemma FieldPutsNothing(n: Word, blanks: seq<Put>, field: string)
    requires Count(blanks) == TWO_32 - 2 && Dropped(n, blanks) == Max(0, TWO_32 - 2 - n) && |field| == 5
    requires !PutsOutside(n, blanks)
    ensures LeavesBuffer(n, blanks + [Whole(field)]) <==> 4 <= n < TWO_32 - 5
  {
    hide Outside, Left;
    var puts := blanks + [Whole(field)];
    assert puts[..|puts| - 1] == blanks;
    assert Count(puts) == TWO_32 + 3 && Dropped(n, puts) == Dropped(n, blanks);
    SmallCount(TWO_32 - 2);
    CellsLeft(n, field);
    BeforeTheEnd(n, Reach(n, TWO_32 - 2, Whole(field)));
    FinalNul(n);
  }

  lemma CellsLeft(n: Word, field: string)
    ensures Reach(n, TWO_32 - 2, Whole(field)) <= Max(0, n - (TWO_32 - 2))
  {
  }

  lemma BeforeTheEnd(n: Word, r: nat)
    requires r <= Max(0, n - (TWO_32 - 2))
    ensures !Outside(n, TWO_32 - 2, Max(0, TWO_32 - 2 - n), r)
  {
  }

  lemma FinalNul(n: Word)
    ensures Outside(n, TWO_32 + 3, Max(0, TWO_32 - 2 - n), 1) <==> 4 <= n < TWO_32 - 5
  {
  }
}
