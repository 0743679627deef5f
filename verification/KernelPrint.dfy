/** printf on the screen, and what the memory map listing prints. */
module KernelPrint {
  import opened Machine
  import opened Numerals
  import opened IntField
  import opened Directives
  import opened Rendering
  import opened BoundedBuffer
  import opened Overruns
  import opened Printer
  import opened Sheets
  import opened Screens

  const BUFFER_SIZE := 32768

  // ----- the bounded result

  /** The string a buffer holds: everything before the first NUL. */
  function UpToNul(s: seq<char>): string {
    if s == [] || s[0] == '\0' then [] else [s[0]] + UpToNul(s[1..])
  }

  lemma {:induction false} UpToNulAt(s: seq<char>, k: nat)
    requires k < |s| && s[k] == '\0'
    ensures UpToNul(s) == UpToNul(s[..k])
  {
    if k == 0 || s[0] == '\0' {
      assert k > 0 ==> s[..k][0] == s[0];
    } else {
      assert s[..k][1..] == s[1..][..k - 1];
      UpToNulAt(s[1..], k - 1);
    }
  }

  lemma {:induction false} UpToNulNone(s: seq<char>)
    requires '\0' !in s
    ensures UpToNul(s) == s
  {
    if s != [] {
      UpToNulNone(s[1..]);
    }
  }

  /** Truncation: a smaller capacity stores a prefix of what a larger one stores, ends it with NUL,
      and leaves everything from the capacity on alone. */
  lemma Truncation(before: seq<char>, small: nat, large: nat, text: string)
    requires 0 < small <= large <= |before|
    ensures var a, b, k := Snapshot(before, small, text), Snapshot(before, large, text), Min(|text|, small - 1);
            && |a| == |before| && a[..k] == b[..k] == text[..k] && a[k] == '\0'
            && a[small..] == before[small..]
            && ('\0' !in text ==> UpToNul(a) == text[..k] && UpToNul(a) <= UpToNul(b))
  {
    var a, b := Snapshot(before, small, text), Snapshot(before, large, text);
    var k, m := Min(|text|, small - 1), Min(|text|, large - 1);
    assert text[..m][..k] == text[..k];
    if '\0' !in text {
      UpToNulAt(a, k);
      UpToNulAt(b, m);
      assert a[..k] == text[..k] && b[..m] == text[..m];
      UpToNulNone(text[..k]);
      UpToNulNone(text[..m]);
    }
  }

  // ----- printf

  /** A character as the signed number the terminal receives. */
  function SignedChar(c: char): int {
    var v := c as int % 0x100;
    if v < 0x80 then v else v - 0x100
  }

  /** The numbers of the characters as signed bytes. */
  predicate SignedBytes(t: seq<int>, s: string) {
    |t| == |s| && forall i :: 0 <= i < |t| ==> -0x80 <= t[i] < 0x80 && (t[i] - s[i] as int) % 0x100 == 0
  }

  lemma SignedBytesIs(t: seq<int>, s: string)
    requires SignedBytes(t, s)
    ensures t == SignedChars(s)
  {
    forall i | 0 <= i < |t|
      ensures t[i] == SignedChar(s[i])
    {
    }
  }

  /** Characters below 0x80 are typed as they are. */
  lemma AsciiBytes(s: string)
    requires forall i :: 0 <= i < |s| ==> s[i] as int < 0x80
    ensures SignedBytes(seq(|s|, i requires 0 <= i < |s| => s[i] as int), s)
  {
  }

  function SignedChars(s: string): (r: seq<int>)
    ensures |r| == |s| && forall i :: 0 <= i < |r| ==> -0x80 <= r[i] < 0x80 && r[i] == SignedChar(s[i])
    ensures SignedBytes(r, s)
  {
    seq(|s|, i requires 0 <= i < |s| => SignedChar(s[i]))
  }

  method Puts(screen: Screen, str: seq<char>)
    requires screen.Valid() && '\0' in str
    modifies screen.fb, screen`csrX, screen`csrY, screen`sheet
    ensures screen.Valid()
    ensures screen.sheet == TypeAll(old(screen.sheet), SignedChars(UpToNul(str)), screen.Cols())
    ensures forall t :: SignedBytes(t, UpToNul(str)) ==> screen.sheet == TypeAll(old(screen.sheet), t, screen.Cols())
  {
    ghost var start := screen.sheet;
    ghost var done := "";
    var i := 0;
    while str[i] != '\0'
      invariant 0 <= i < |str| && '\0' in str[i..]
      invariant UpToNul(str) == done + UpToNul(str[i..])
      invariant screen.Valid() && screen.sheet == TypeAll(start, SignedChars(done), screen.Cols())
      decreases |str| - i
    {
      screen.PutChar(SignedChar(str[i]));
      TypeSnoc(start, done, str[i], screen.Cols());
      PutsStep(str, i, done);
      done := done + [str[i]];
      i := i + 1;
    }
    assert done + UpToNul(str[i..]) == done;
    forall t | SignedBytes(t, UpToNul(str))
      ensures t == SignedChars(UpToNul(str))
    {
      SignedBytesIs(t, UpToNul(str));
    }
  }

  lemma TypeSnoc(s: Sheet, t: string, c: char, cols: nat)
    ensures TypeAll(s, SignedChars(t + [c]), cols) == Type(TypeAll(s, SignedChars(t), cols), SignedChar(c), cols)
  {
    assert SignedChars(t + [c])[..|t|] == SignedChars(t);
  }

  lemma PutsStep(str: seq<char>, i: nat, done: string)
    requires i < |str| && str[i] != '\0' && '\0' in str[i..]
    ensures i + 1 < |str| && '\0' in str[i + 1..]
    ensures done + UpToNul(str[i..]) == done + [str[i]] + UpToNul(str[i + 1..])
  {
    var k :| 0 <= k < |str[i..]| && str[i..][k] == '\0';
    assert str[i + 1..][k - 1] == '\0';
    assert str[i..][1..] == str[i + 1..];
  }

  /** What a call of printf leaves in the buffer before the last NUL is written. */
  function Stored(mem: Memory, format: string, env: Env): Memory {
    Final(mem, BUFFER_SIZE, PutsOf(Parse(format), env, 0))
  }

  lemma StoredText(mem: Memory, format: string, env: Env, rv: nat)
    requires Countable(Printed(format, env).text) && rv == Min(|Printed(format, env).text|, BUFFER_SIZE - 1)
    ensures Stored(mem, format, env)[..rv] == Printed(format, env).text[..rv]
  {
    hide Final, PutsOf, Printed;
    FinalText(mem, BUFFER_SIZE, format, env);
  }

  /** Formats into the first cells of memory and clamps the count; a count that is negative as an
      int is returned at once. */
  method FormatBuffer(mem: array<char>, format: string, env: Env) returns (rv: int, stores: seq<Store>)
    requires mem.Length == TWO_32 && Renderable(Parse(format), env, 0)
    requires !LeavesBuffer(BUFFER_SIZE, PutsOf(Parse(format), env, 0))
    modifies mem
    ensures stores == Printed(format, env).stores
    ensures rv == Min(Signed32(|Printed(format, env).text| % TWO_32), BUFFER_SIZE - 1)
    ensures rv >= 0 ==> '\0' in mem[..BUFFER_SIZE] &&
                        UpToNul(mem[..BUFFER_SIZE]) == UpToNul(Stored(old(mem[..]), format, env)[..rv])
    ensures forall i :: BUFFER_SIZE <= i < TWO_32 ==> mem[i] == old(mem[i])
  {
    hide Final, Printed, LeavesBuffer, PutsOf, Renderable;
    var count;
    count, stores := Vsnprintf(mem, BUFFER_SIZE, format, env);
    ghost var stored := mem[..];
    rv := Signed32(count);
    if rv < 0 {
      return;
    }
    if rv > BUFFER_SIZE - 1 {
      rv := BUFFER_SIZE - 1;
    }
    mem[rv] := '\0';
    ghost var buffer := mem[..BUFFER_SIZE];
    assert buffer[..rv] == stored[..rv] && buffer[rv] == '\0';
    UpToNulAt(buffer, rv);
  }

  /** Types the string in the buffer on the screen, if the count is not negative. */
  method Printf(screen: Screen, mem: array<char>, format: string, env: Env) returns (rv: int, stores: seq<Store>)
    requires screen.Valid() && mem.Length == TWO_32 && Renderable(Parse(format), env, 0)
    requires !LeavesBuffer(32768, PutsOf(Parse(format), env, 0))
    modifies mem, screen.fb, screen`csrX, screen`csrY, screen`sheet
    ensures screen.Valid() && stores == Printed(format, env).stores
    ensures rv == Min(Signed32(|Printed(format, env).text| % 0x1_0000_0000), 32767)
    ensures var shown := if Countable(Printed(format, env).text) then Printed(format, env).text
                         else Stored(old(mem[..]), format, env);
            && (rv < 0 ==> screen.sheet == old(screen.sheet))
            && (rv >= 0 ==> forall t :: SignedBytes(t, UpToNul(shown[..rv])) ==>
                              screen.sheet == TypeAll(old(screen.sheet), t, screen.Cols()))
    ensures forall i :: 32768 <= i < TWO_32 ==> mem[i] == old(mem[i])
  {
    hide Stored, Printed, LeavesBuffer, PutsOf, Renderable, Screen.Valid, TypeAll, UpToNul;
    ghost var before: Memory := mem[..];
    rv, stores := FormatBuffer(mem, format, env);
    if Countable(Printed(format, env).text) && rv >= 0 {
      StoredText(before, format, env, rv);
    }
    if rv >= 0 {
      Puts(screen, mem[..BUFFER_SIZE]);
    }
  }

  // ----- the memory map listing

  function HexText(w: Word): string {
    Field(w, NO_FLAGS, 16, 0, -1)
  }

  function HexText8(w: Word): string {
    Field(w, NO_FLAGS.(zero := true), 16, 8, -1)
  }

  /** The low half is always eight digits. */
  lemma LowHalf(w: Word)
    ensures Read(HexText8(w), 16) == w && DigitsIn(HexText8(w)) == 8
  {
    PaddedHex(w);
    hide HexText8, Body, Read, DigitsIn, Numeral;
    var body := Body(w, NO_FLAGS.(zero := true), 16, -1);
    BodyReads(w, NO_FLAGS.(zero := true), 16, -1);
    DigitsOnly(body);
    ReadFill('0', 8 - |body|, 16);
    ReadConcat(Fill('0', 8 - |body|), body, 16);
  }

  lemma PaddedHex(w: Word)
    ensures var body := Body(w, NO_FLAGS.(zero := true), 16, -1);
            |body| <= 8 && AllDigits(body) && HexText8(w) == Fill('0', 8 - |body|) + body
  {
    hide Read, Numeral, Pow, DigitText;
    var flags := NO_FLAGS.(zero := true);
    PowEight();
    NumeralBound(w, 16, false, 8);
    DigitCount(w, flags, 16, -1);
    DigitTextChars(w, flags, 16, -1);
    ZeroPadded(w, 16, 8, -1);
  }

  lemma ZeroPadded(w: Word, base: nat, width: int, prec: int)
    requires ValidBase(base)
    ensures var flags := NO_FLAGS.(zero := true); var body := Body(w, flags, base, prec);
            Field(w, flags, base, width, prec) == Fill('0', width - |body|) + body
  {
    hide Body;
  }

  /** "%x" of the high half followed by "%08x" of the low half reads back as the whole 64-bit value. */
  lemma HexPair(high: Word, low: Word)
    ensures Read(HexText(high) + HexText8(low), 16) == high * TWO_32 + low
  {
    LowHalf(low);
    PowEight();
    BodyReads(high, NO_FLAGS, 16, -1);
    assert HexText(high) == Body(high, NO_FLAGS, 16, -1);
    ReadConcat(HexText(high), HexText8(low), 16);
  }

  /** The kinds of text the listing of a region is made of. */
  datatype Piece = Text(s: string) | Hex | Hex8 | Decimal | Str

  function Source(p: Piece): string {
    match p
    case Text(s) => s
    case Hex => "%x"
    case Hex8 => "%08x"
    case Decimal => "%d"
    case Str => "%s"
  }

  function Sources(ps: seq<Piece>): string {
    if ps == [] then "" else Source(ps[0]) + Sources(ps[1..])
  }

  function WordsTaken(p: Piece): nat {
    if p.Text? then 0 else 1
  }

  function PieceText(p: Piece, env: Env, next: nat): string {
    match p
    case Text(s) => s
    case Hex => HexText(env.word(next))
    case Hex8 => HexText8(env.word(next))
    case Decimal => Field(env.word(next), NO_FLAGS.(signed := true), 10, 0, -1)
    case Str => StringArgument('s', env.word(next), env)
  }

  /** What a list of pieces prints: their texts in order, each taking the next argument. */
  function Listing(ps: seq<Piece>, env: Env, next: nat): string {
    if ps == [] then "" else PieceText(ps[0], env, next) + Listing(ps[1..], env, next + WordsTaken(ps[0]))
  }

  function PieceItem(p: Piece): Item
    requires !p.Text?
  {
    match p
    case Hex => Canonical(NO_FLAGS, 0, -1, RANK_INT, 'x')
    case Hex8 => Canonical(NO_FLAGS.(zero := true), 8, -1, RANK_INT, 'x')
    case Decimal => Canonical(NO_FLAGS, 0, -1, RANK_INT, 'd')
    case Str => Canonical(NO_FLAGS, 0, -1, RANK_INT, 's')
  }

  lemma PieceSource(p: Piece)
    requires !p.Text?
    ensures WriteItem(PieceItem(p)) == Source(p) && WellFormed(PieceItem(p))
  {
    match p
    case Hex => CanonicalWellFormed(NO_FLAGS, 0, -1, RANK_INT, 'x');
    case Hex8 =>
      CanonicalWellFormed(NO_FLAGS.(zero := true), 8, -1, RANK_INT, 'x');
      assert Numeral(8, 10, false) == Numeral(0, 10, false) + "8";
    case Decimal => CanonicalWellFormed(NO_FLAGS, 0, -1, RANK_INT, 'd');
    case Str => CanonicalWellFormed(NO_FLAGS, 0, -1, RANK_INT, 's');
  }

  lemma PieceEffect(p: Piece, env: Env, next: nat, count: nat)
    requires !p.Text?
    ensures ItemEffect(PieceItem(p), env, next, count) == Effect(PieceText(p, env, next), [], next + 1)
  {
    hide Field;
    match p
    case Hex => CanonicalSettings(NO_FLAGS, 0, -1, RANK_INT, 'x', env, next);
    case Hex8 => CanonicalSettings(NO_FLAGS.(zero := true), 8, -1, RANK_INT, 'x', env, next);
    case Decimal => CanonicalSettings(NO_FLAGS, 0, -1, RANK_INT, 'd', env, next);
    case Str =>
      CanonicalSettings(NO_FLAGS, 0, -1, RANK_INT, 's', env, next);
      var t := StringArgument('s', env.word(next), env);
      assert Fill(' ', 0 - |t|) + t == t;
  }

  lemma LiteralFirst(c: char, tail: string, env: Env, next: nat, count: nat)
    requires c != '%'
    ensures var others := Render(Parse(tail), env, next, count + 1);
            Render(Parse([c] + tail), env, next, count) == Output([c] + others.text, others.stores)
  {
    hide Render, Directives.ParseFlags;
    assert ([c] + tail)[1..] == tail;
    RenderDirective(Literal(c), Parse(tail), env, next, count, Effect([c], [], next));
  }

  /** Plain text is parsed and printed as it stands. */
  lemma {:induction false} PlainText(s: string, rest: string, env: Env, next: nat, count: nat)
    requires '%' !in s
    ensures var others := Render(Parse(rest), env, next, count + |s|);
            Render(Parse(s + rest), env, next, count) == Output(s + others.text, others.stores)
  {
    hide Render, Parse;
    var others := Render(Parse(rest), env, next, count + |s|);
    if s == "" {
      assert s + rest == rest && "" + others.text == others.text;
    } else {
      var first := [s[0]];
      assert first + s[1..] == s && first + (s[1..] + rest) == s + rest;
      LiteralFirst(s[0], s[1..] + rest, env, next, count);
      PlainText(s[1..], rest, env, next, count + 1);
      AppendAssoc(first, s[1..], others.text);
    }
  }

  lemma DirectiveFirst(p: Piece, rest: string, env: Env, next: nat, count: nat)
    requires !p.Text?
    ensures var t := PieceText(p, env, next);
            var others := Render(Parse(rest), env, next + 1, count + |t|);
            Render(Parse(Source(p) + rest), env, next, count) == Output(t + others.text, others.stores)
  {
    hide PieceText, PieceItem, Parse, Render, ItemEffect, WriteItem, WellFormed;
    var item, items := PieceItem(p), Parse(rest);
    PieceSource(p);
    ParseItem(item, rest);
    PieceEffect(p, env, next, count);
    RenderDirective(item, items, env, next, count, Effect(PieceText(p, env, next), [], next + 1));
  }

  lemma RenderDirective(item: Item, items: seq<Item>, env: Env, next: nat, count: nat, e: Effect)
    requires e == ItemEffect(item, env, next, count) && e.stores == []
    ensures var others := Render(items, env, e.next, count + |e.text|);
            Render([item] + items, env, next, count) == Output(e.text + others.text, others.stores)
  {
    hide ItemEffect, Render;
    RenderCons(item, items, env, next, count);
    var others := Render(items, env, e.next, count + |e.text|);
    assert [] + others.stores == others.stores;
  }

  /** One piece in front of any format. */
  lemma PieceFirst(p: Piece, rest: string, env: Env, next: nat, count: nat)
    requires p.Text? ==> '%' !in p.s
    ensures var t := PieceText(p, env, next);
            var others := Render(Parse(rest), env, next + WordsTaken(p), count + |t|);
            Render(Parse(Source(p) + rest), env, next, count) == Output(t + others.text, others.stores)
  {
    hide Field;
    if p.Text? {
      PlainText(p.s, rest, env, next, count);
    } else {
      DirectiveFirst(p, rest, env, next, count);
    }
  }

  /** A format made of pieces prints the texts of the pieces. */
  lemma {:induction false} PrintPieces(ps: seq<Piece>, env: Env, next: nat, count: nat)
    requires forall i :: 0 <= i < |ps| ==> ps[i].Text? ==> '%' !in ps[i].s
    ensures Render(Parse(Sources(ps)), env, next, count) == Output(Listing(ps, env, next), [])
  {
    hide PieceText, ParseFlags, ItemEffect;
    if ps != [] {
      var t := PieceText(ps[0], env, next);
      PieceFirst(ps[0], Sources(ps[1..]), env, next, count);
      PrintPieces(ps[1..], env, next + WordsTaken(ps[0]), count + |t|);
    }
  }

  const DESCRIPTOR: seq<Piece> :=
    [Text("Base: 0x"), Hex, Hex8, Text(", Length: 0x"), Hex, Hex8,
     Text(", Type: "), Decimal, Text(" "), Str, Text("\n")]

  lemma ListingPair(ps: seq<Piece>, env: Env, next: nat, title: string)
    requires |ps| >= 3 && ps[0] == Text(title) && ps[1] == Hex && ps[2] == Hex8
    ensures Listing(ps, env, next)
            == title + (HexText(env.word(next)) + HexText8(env.word(next + 1))) + Listing(ps[3..], env, next + 2)
  {
    hide HexText, HexText8;
    assert ps[1..][1..] == ps[2..] && ps[2..][1..] == ps[3..];
    var h, l, rest := HexText(env.word(next)), HexText8(env.word(next + 1)), Listing(ps[3..], env, next + 2);
    assert Listing(ps[2..], env, next + 1) == l + rest;
    assert Listing(ps[1..], env, next) == h + (l + rest);
    assert title + (h + (l + rest)) == title + (h + l) + rest;
  }

  lemma TwoPairs(ps: seq<Piece>, env: Env, first: string, second: string)
    requires |ps| >= 6 && ps[0] == Text(first) && ps[1] == ps[4] == Hex
             && ps[2] == ps[5] == Hex8 && ps[3] == Text(second)
    ensures Listing(ps, env, 0)
            == first + (HexText(env.word(0)) + HexText8(env.word(1)))
               + (second + (HexText(env.word(2)) + HexText8(env.word(3))) + Listing(ps[6..], env, 4))
  {
    hide HexText, HexText8, Listing;
    ListingPair(ps, env, 0, first);
    ListingPair(ps[3..], env, 2, second);
    assert ps[3..][3..] == ps[6..];
  }

  lemma SourcesCons(p: Piece, ps: seq<Piece>)
    ensures Sources([p] + ps) == Source(p) + Sources(ps)
  {
    assert ([p] + ps)[1..] == ps;
  }

  lemma DescriptorFormat()
    ensures Sources(DESCRIPTOR) == "Base: 0x%x%08x, Length: 0x%x%08x, Type: %d %s\n"
  {
    hide Sources, DESCRIPTOR;
    var typed := [Text(", Type: "), Decimal, Text(" "), Str, Text("\n")];
    var long := [Text(", Length: 0x"), Hex, Hex8] + typed;
    TypeFormat();
    PairFormat(", Length: 0x", typed);
    PairFormat("Base: 0x", long);
    DescriptorPieces();
    FormatJoins();
  }

  lemma DescriptorPieces()
    ensures DESCRIPTOR == [Text("Base: 0x"), Hex, Hex8]
                          + ([Text(", Length: 0x"), Hex, Hex8]
                             + [Text(", Type: "), Decimal, Text(" "), Str, Text("\n")])
  {
  }

  lemma FormatJoins()
    ensures "Base: 0x" + "%x%08x" + (", Length: 0x" + "%x%08x" + ", Type: %d %s\n")
            == "Base: 0x%x%08x, Length: 0x%x%08x, Type: %d %s\n"
  {
  }

  lemma PairFormat(title: string, ps: seq<Piece>)
    ensures Sources([Text(title), Hex, Hex8] + ps) == title + "%x%08x" + Sources(ps)
  {
    hide Sources;
    SourcesCons(Hex8, ps);
    SourcesCons(Hex, [Hex8] + ps);
    SourcesCons(Text(title), [Hex] + ([Hex8] + ps));
    assert [Text(title)] + ([Hex] + ([Hex8] + ps)) == [Text(title), Hex, Hex8] + ps;
    assert title + ("%x" + ("%08x" + Sources(ps))) == title + "%x%08x" + Sources(ps);
  }

  lemma TypeFormat()
    ensures Sources([Text(", Type: "), Decimal, Text(" "), Str, Text("\n")]) == ", Type: %d %s\n"
  {
    var end: seq<Piece> := [Text("\n")];
    SourcesCons(Text("\n"), []);
    SourcesCons(Str, end);
    SourcesCons(Text(" "), [Str] + end);
    SourcesCons(Decimal, [Text(" ")] + ([Str] + end));
    SourcesCons(Text(", Type: "), [Decimal] + ([Text(" ")] + ([Str] + end)));
    assert [Text("\n")] + [] == end;
    assert [Text(", Type: ")] + ([Decimal] + ([Text(" ")] + ([Str] + end)))
           == [Text(", Type: "), Decimal, Text(" "), Str, Text("\n")];
  }

  lemma ListingCons(p: Piece, ps: seq<Piece>, env: Env, next: nat)
    ensures Listing([p] + ps, env, next) == PieceText(p, env, next) + Listing(ps, env, next + WordsTaken(p))
  {
    assert ([p] + ps)[1..] == ps;
  }

  lemma TypeListing(env: Env)
    ensures Listing(DESCRIPTOR[6..], env, 4)
            == ", Type: " + PieceText(Decimal, env, 4) + (" " + PieceText(Str, env, 5) + "\n")
  {
    hide Listing, HexText, HexText8, Field, StringArgument;
    var end: seq<Piece> := [Text("\n")];
    ListingCons(Text("\n"), [], env, 6);
    ListingCons(Str, end, env, 5);
    ListingCons(Text(" "), [Str] + end, env, 5);
    ListingCons(Decimal, [Text(" ")] + ([Str] + end), env, 4);
    ListingCons(Text(", Type: "), [Decimal] + ([Text(" ")] + ([Str] + end)), env, 4);
    NothingListed(env, 6);
    assert [Text("\n")] + [] == end && "\n" + "" == "\n";
    assert [Text(", Type: ")] + ([Decimal] + ([Text(" ")] + ([Str] + end))) == DESCRIPTOR[6..];
    var d, n := PieceText(Decimal, env, 4), PieceText(Str, env, 5);
    assert ", Type: " + (d + (" " + (n + "\n"))) == ", Type: " + d + (" " + n + "\n");
  }

  lemma NothingListed(env: Env, next: nat)
    ensures Listing([], env, next) == ""
  {
  }

  /** The listing of a region prints its base and its length so that they read back as
      the whole 64-bit numbers, from the high and low halves it is given, its type as a number, and
      the string it is given. */
  lemma DescriptorListing(env: Env) returns (base: string, length: string, kind: string)
    ensures var name := if env.word(5) == 0 then "(null)" else env.text(env.word(5));
            Printed("Base: 0x%x%08x, Length: 0x%x%08x, Type: %d %s\n", env)
            == Output("Base: 0x" + base + (", Length: 0x" + length + (", Type: " + kind + (" " + name + "\n"))), [])
    ensures Read(base, 16) == env.word(0) * TWO_32 + env.word(1)
    ensures Read(length, 16) == env.word(2) * TWO_32 + env.word(3)
    ensures Scan(kind, 10) == Signed32(env.word(4))
  {
    hide HexText, HexText8, Listing, Render, Parse, Sources, Read, Field, Scan;
    base := HexText(env.word(0)) + HexText8(env.word(1));
    length := HexText(env.word(2)) + HexText8(env.word(3));
    kind := PieceText(Decimal, env, 4);
    DescriptorFormat();
    DecimalScans(env);
    DescriptorText(env);
    HexPair(env.word(0), env.word(1));
    HexPair(env.word(2), env.word(3));
    PrintPieces(DESCRIPTOR, env, 0, 0);
  }

  lemma DecimalScans(env: Env)
    ensures Scan(PieceText(Decimal, env, 4), 10) == Signed32(env.word(4))
  {
    FieldRoundTrip(env.word(4), NO_FLAGS.(signed := true), 10, 0, -1);
  }

  lemma DescriptorText(env: Env)
    ensures var name := if env.word(5) == 0 then "(null)" else env.text(env.word(5));
            Listing(DESCRIPTOR, env, 0)
            == "Base: 0x" + (HexText(env.word(0)) + HexText8(env.word(1)))
               + (", Length: 0x" + (HexText(env.word(2)) + HexText8(env.word(3)))
                  + (", Type: " + PieceText(Decimal, env, 4) + (" " + name + "\n")))
  {
    hide HexText, HexText8, Listing, Field;
    TypeListing(env);
    TwoPairs(DESCRIPTOR, env, "Base: 0x", ", Length: 0x");
  }
}
