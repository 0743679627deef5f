/** The integer formatter: measures a field, then emits it, the number from right to left. */
module IntPrinter {
  import opened Machine
  import opened Numerals
  import opened IntField
  import opened BoundedBuffer

  /** The hole left for a number that is being filled in from its right end. */
  ghost predicate HoldsAround(mem: array<char>, before: Memory, start: Word, n: Word, text: string,
                              from: nat, to: nat)
    reads mem
  {
    mem.Length == TWO_32 &&
    forall i :: 0 <= i < TWO_32 ==>
      mem[i] == if from <= Sub32(i, start) < to then before[i] else Cell(before, start, n, text, i)
  }

  /** Writes one cell of the number, if it lies before the limit. */
  method Poke(mem: array<char>, qq: Word, oo: Word, n: Word, c: char,
              ghost before: Memory, ghost start: Word, ghost all: string, ghost from: nat)
    requires HoldsAround(mem, before, start, n, all, from, oo + 1)
    requires from <= oo < |all| && all[oo] == c && (from <= n ==> qq == Add32(start, oo))
    modifies mem
    ensures HoldsAround(mem, before, start, n, all, from, oo)
  {
    if oo < n {
      mem[qq] := c;
    }
  }

  /** One round of the number loop: the last open cell is the last character, behind a tick when
      a group is complete; the cells before it are those of the remaining characters. */
  lemma TickStep(body: string, n: nat, ds: string, k: nat, b: nat)
    requires k > 0 && 0 < n <= |body| && body[..n] == GroupedShort(ds, k, b)
    ensures ds != ""
    ensures var m := if b == 0 then n - 1 else n;
            && (b == 0 ==> body[n - 1] == '_')
            && m > 0 && body[m - 1] == ds[|ds| - 1]
            && body[..m - 1] == GroupedShort(ds[..|ds| - 1], k, if b == 0 then k - 1 else b - 1)
  {
    var last := [ds[|ds| - 1]];
    if b == 0 {
      GroupedShortBoundary(ds, k);
      GroupedShortInside(ds, k, k);
      var rest := GroupedShort(ds[..|ds| - 1], k, k - 1);
      DropLast(body, n, rest + last, "_");
      DropLast(body, n - 1, rest, last);
    } else {
      GroupedShortInside(ds, k, b);
      DropLast(body, n, GroupedShort(ds[..|ds| - 1], k, b - 1), last);
    }
  }

  lemma DigitsStep(v: nat, base: nat, upper: bool, r: nat)
    requires ValidBase(base) && r > 0
    ensures var ds := Digits(v, base, upper, r);
            ds[..|ds| - 1] == Digits(Quotient(v, base), base, upper, r - 1) &&
            ds[|ds| - 1] == DigitChar(Remainder(v, base), upper)
  {
  }

  lemma DropLast(body: string, n: nat, head: string, last: string)
    requires n <= |body| && body[..n] == head + last && |last| == 1
    ensures n > 0 && body[n - 1] == last[0] && body[..n - 1] == head
  {
    assert body[..n][n - 1] == last[0];
    assert body[..n][..n - 1] == head;
  }

  /** What the number loop keeps: the cells from oo on are written, and the open ones are those
      of the remaining digits ds. */
  ghost predicate NumberState(mem: array<char>, before: Memory, start: Word, n: Word, text: string, body: string,
                              ds: string, tickskip: Int, b4tick: Int, qq: Word, oo: Word, ndigits: Int)
    requires tickskip > 0
    reads mem
  {
    && 0 <= b4tick <= tickskip && 0 <= ndigits <= |body|
    && body[..ndigits] == GroupedShort(ds, tickskip, b4tick)
    && oo == |text| + ndigits && (|text| <= n ==> qq == Add32(start, oo))
    && HoldsAround(mem, before, start, n, text + body, |text|, oo)
  }

  /** One round of the number loop, for the digit c. */
  method NumberRound(mem: array<char>, qq: Word, oo: Word, n: Word, ndigits: Int, b4tick: Int, tickskip: Int, c: char,
                     ghost before: Memory, ghost start: Word, ghost text: string, ghost body: string,
                     ghost ds: string)
    returns (qq': Word, oo': Word, ndigits': Int, b4tick': Int)
    requires tickskip > 0 && ndigits > 0
    requires NumberState(mem, before, start, n, text, body, ds, tickskip, b4tick, qq, oo, ndigits)
    requires ds != "" ==> c == ds[|ds| - 1]
    modifies mem
    ensures ds != "" && 0 <= ndigits' < ndigits
    ensures NumberState(mem, before, start, n, text, body, ds[..|ds| - 1], tickskip, b4tick', qq', oo', ndigits')
  {
    hide GroupedShort;
    TickStep(body, ndigits, ds, tickskip, b4tick);
    qq', oo', ndigits', b4tick' := qq, oo, ndigits, b4tick - 1;
    if b4tick == 0 {
      qq', oo', ndigits' := Sub32(qq', 1), oo' - 1, ndigits' - 1;
      Poke(mem, qq', oo', n, '_', before, start, text + body, |text|);
      b4tick' := tickskip - 1;
    }
    qq', oo', ndigits' := Sub32(qq', 1), oo' - 1, ndigits' - 1;
    Poke(mem, qq', oo', n, c, before, start, text + body, |text|);
  }

  /** Before the number is written all its cells are open, and after it none is. */
  lemma NumberOpens(mem: array<char>, before: Memory, start: Word, q: Word, o: Word, n: Word, text: string,
                    ds: string, tickskip: Int)
    requires tickskip > 0 && mem.Length == TWO_32 && Cursor(Port(mem[..], q, o), before, start, n, text)
    requires |Grouped(ds, tickskip)| < INT_LIMIT && Countable(text + Grouped(ds, tickskip))
    ensures var body := Grouped(ds, tickskip);
            NumberState(mem, before, start, n, text, body, ds, tickskip, tickskip,
                        Add32(q, |body|), o + |body|, |body|)
  {
    hide Grouped;
    var body := Grouped(ds, tickskip);
    assert body[..|body|] == body == GroupedShort(ds, tickskip, tickskip) by {
      GroupedWhole(ds, tickskip);
    }
    assert forall i :: 0 <= i < TWO_32 ==> mem[..][i] == mem[i];
  }

  lemma GroupedWhole(ds: string, k: nat)
    requires k > 0
    ensures GroupedShort(ds, k, k) == Grouped(ds, k)
  {
  }

  lemma NumberCloses(mem: array<char>, before: Memory, start: Word, q: Word, o: Word, n: Word, text: string,
                     body: string, ds: string, tickskip: Int, b4tick: Int, qq: Word, oo: Word)
    requires tickskip > 0 && NumberState(mem, before, start, n, text, body, ds, tickskip, b4tick, qq, oo, 0)
    requires o == |text + body| && (|text| <= n ==> q == Add32(start, o))
    ensures mem.Length == TWO_32 && Cursor(Port(mem[..], q, o), before, start, n, text + body)
  {
    assert forall i :: 0 <= i < TWO_32 ==> mem[..][i] == mem[i];
  }

  /** Fills in a number from right to left; cells is the room set aside for digits and ticks. */
  method WriteNumber(mem: array<char>, q: Word, o: Word, n: Word, val: Word, base: nat, upper: bool,
                     cells: Int, tickskip: Int, ghost d: nat,
                     ghost before: Memory, ghost start: Word, ghost text: string) returns (q': Word, o': Word)
    requires ValidBase(base) && tickskip > 0
    requires cells == |Grouped(Digits(val, base, upper, d), tickskip)|
    requires mem.Length == TWO_32 && Cursor(Port(mem[..], q, o), before, start, n, text)
    requires Countable(text + Grouped(Digits(val, base, upper, d), tickskip))
    modifies mem
    ensures Cursor(Port(mem[..], q', o'), before, start, n, text + Grouped(Digits(val, base, upper, d), tickskip))
  {
    hide NumberState, Grouped, Digits, Quotient, Remainder, DigitChar, Holds;
    ghost var ds := Digits(val, base, upper, d);
    ghost var body := Grouped(ds, tickskip);
    q', o' := Add32(q, cells), Add32(o, cells);
    var qq, oo, ndigits: Int, v: nat, b4tick: Int := q', o', cells, val, tickskip;
    NumberOpens(mem, before, start, q, o, n, text, ds, tickskip);
    assert o' == |text + body| && (|text| <= n ==> q' == Add32(start, o'));
    ghost var r := d;
    while ndigits > 0
      invariant ds == Digits(v, base, upper, r)
      invariant ndigits >= 0 && NumberState(mem, before, start, n, text, body, ds, tickskip, b4tick, qq, oo, ndigits)
      decreases ndigits
    {
      if r > 0 {
        DigitsStep(v, base, upper, r);
      }
      qq, oo, ndigits, b4tick := NumberRound(mem, qq, oo, n, ndigits, b4tick, tickskip,
                                             DigitChar(Remainder(v, base), upper), before, start, text, body, ds);
      ds := ds[..|ds| - 1];
      v, r := Quotient(v, base), r - 1;
    }
    NumberCloses(mem, before, start, q', o', n, text, body, ds, tickskip, b4tick, qq, oo);
  }

  lemma WordDigits(val: Word, base: nat, upper: bool)
    requires ValidBase(base)
    ensures |Numeral(val, base, upper)| <= 11
  {
    if base == 8 {
      assert Pow(8, 4) == 0x1000 && Pow(8, 8) == Pow(8, 7) * 8 &&
             Pow(8, 7) == Pow(8, 6) * 8 && Pow(8, 6) == Pow(8, 5) * 8;
    }
    NumeralBound(val, base, upper, 11);
  }

  method CountDigits(val: Word, base: nat, ghost upper: bool) returns (ndigits: Int)
    requires ValidBase(base)
    ensures ndigits == |Numeral(val, base, upper)|
  {
    var tmpval: nat := val;
    ndigits := 0;
    WordDigits(val, base, upper);
    while tmpval != 0
      invariant ndigits + |Numeral(tmpval, base, upper)| == |Numeral(val, base, upper)|
      decreases tmpval
    {
      tmpval := Quotient(tmpval, base);
      ndigits := ndigits + 1;
    }
  }

  /** The number of digits after the precision, `#` and zero have been taken into account. */
  method DigitCells(mag: Word, flags: Flags, base: nat, prec: Int) returns (ndigits: Int)
    requires ValidBase(base) && |DigitText(mag, flags, base, prec)| < INT_LIMIT
    ensures ndigits > 0 && Digits(mag, base, flags.upper, ndigits) == DigitText(mag, flags, base, prec)
  {
    ndigits := CountDigits(mag, base, flags.upper);
    var p := prec;
    if flags.hash && base == 8 && p < ndigits + 1 {
      p := ndigits + 1;
    }
    if ndigits < p {
      ndigits := p;
    } else if mag == 0 {
      ndigits := 1;
    }
    DigitsArePaddedNumeral(mag, base, flags.upper, ndigits);
  }

  method EmitSign(mem: array<char>, q: Word, o: Word, n: Word, minus: bool, flags: Flags, ghost val: Word)
    returns (q': Word, o': Word)
    requires mem.Length == TWO_32 && minus == IsNegative(val, flags)
    modifies mem
    ensures Port(mem[..], q', o') == Play(Port(old(mem[..]), q, o), n, Ones(Sign(val, flags)))
  {
    hide Place;
    q', o' := q, o;
    ghost var p := Port(mem[..], q, o);
    PlayNothing(p, n);
    if minus {
      q', o' := EmitFirst(mem, q', o', n, '-');
    } else if flags.plus {
      q', o' := EmitFirst(mem, q', o', n, '+');
    } else if flags.space {
      q', o' := EmitFirst(mem, q', o', n, ' ');
    }
  }

  /** A single character as a text. */
  method EmitFirst(mem: array<char>, q: Word, o: Word, n: Word, c: char) returns (q': Word, o': Word)
    requires mem.Length == TWO_32
    modifies mem
    ensures Port(mem[..], q', o') == Play(Port(old(mem[..]), q, o), n, Ones([c]))
  {
    hide Place;
    ghost var p := Port(mem[..], q, o);
    q', o' := Emit(mem, q, o, n, c);
    PlayNothing(p, n);
    PlaySnoc(p, n, "", c);
    assert "" + [c] == [c];
  }

  method EmitPrefix(mem: array<char>, q: Word, o: Word, n: Word, flags: Flags, base: nat)
    returns (q': Word, o': Word)
    requires mem.Length == TWO_32
    modifies mem
    ensures Port(mem[..], q', o') == Play(Port(old(mem[..]), q, o), n, Ones(Prefix(flags, base)))
  {
    hide Place;
    q', o' := q, o;
    ghost var p := Port(mem[..], q, o);
    PlayNothing(p, n);
    if flags.hash && base == 16 {
      q', o' := EmitFirst(mem, q', o', n, '0');
      var x := if flags.upper then 'X' else 'x';
      q', o' := EmitFirst(mem, q', o', n, x);
      PlayOnes(p, n, "0", [x]);
      assert Prefix(flags, base) == "0" + [x];
    }
  }

  /** Early blanks, sign, prefix and zeros; width comes down as padding is emitted. */
  method EmitLead(mem: array<char>, q: Word, n: Word, minus: bool, flags: Flags, base: nat, width: Int,
                  ndigits: Int, nchars: Int, ghost val: Word)
    returns (q': Word, o: Word, width': Int)
    requires mem.Length == TWO_32 && minus == IsNegative(val, flags)
    requires ndigits >= 0 && nchars == |Sign(val, flags)| + |Prefix(flags, base)| + ndigits
    modifies mem
    ensures var lead := Lead(Sign(val, flags), Prefix(flags, base), ndigits, flags, width);
            Port(mem[..], q', o) == Play(Port(old(mem[..]), q, 0), n, Ones(lead))
    ensures flags.minus ==> width' == width
  {
    hide Place, Play, Lead, Sign, Prefix, Ones;
    ghost var p, sign, prefix := Port(mem[..], q, 0), Sign(val, flags), Prefix(flags, base);
    ghost var text := "";
    PlayNothing(p, n);
    LeadByBranch(sign, prefix, ndigits, flags, width);
    q', o, width' := q, 0, width;
    if !flags.minus && !flags.zero && width' > nchars {
      q', o, width' := Pad(mem, q', o, n, ' ', width', nchars);
      text := "" + Fill(' ', width - nchars);
      PlayOnes(p, n, "", Fill(' ', width - nchars));
    }
    q', o := EmitSign(mem, q', o, n, minus, flags, val);
    PlayOnes(p, n, text, sign);
    q', o := EmitPrefix(mem, q', o, n, flags, base);
    PlayOnes(p, n, text + sign, prefix);
    text := text + sign + prefix;
    if !flags.minus && flags.zero && width' > ndigits {
      q', o, width' := Pad(mem, q', o, n, '0', width', nchars);
      PlayOnes(p, n, text, Fill('0', width - nchars));
    } else {
      assert text + "" == text;
    }
  }

  lemma LeadByBranch(sign: string, prefix: string, m: nat, flags: Flags, width: int)
    ensures var pad := width - |sign| - |prefix| - m;
            Lead(sign, prefix, m, flags, width)
            == (if !flags.minus && !flags.zero && pad > 0 then "" + Fill(' ', pad) else "") + sign + prefix
               + (if !flags.minus && flags.zero && width > m then Fill('0', pad) else "")
  {
  }

  /** The cells of digits and ticks, and the distance between ticks. */
  method MeasureBody(v: Word, flags: Flags, base: nat, prec: Int)
    returns (ndigits: Int, tickskip: Int, ghost d: nat)
    requires ValidBase(base) && |Body(v, flags, base, prec)| < INT_LIMIT
    ensures tickskip > 0 && Grouped(Digits(v, base, flags.upper, d), tickskip) == Body(v, flags, base, prec)
    ensures ndigits == |Body(v, flags, base, prec)|
  {
    hide DigitText;
    TicksOnlyAdd(v, flags, base, prec);
    ndigits := DigitCells(v, flags, base, prec);
    d := ndigits;
    tickskip := if flags.tick then (if base == 16 then 4 else 3) else ndigits;
    ndigits := AddTicks(ndigits, tickskip, Digits(v, base, flags.upper, d));
  }

  /** How the parts of a field are measured before anything is emitted. */
  method Measure(val: Word, flags: Flags, base: nat, prec: Int)
    returns (minus: bool, v: Word, ndigits: Int, nchars: Int, tickskip: Int, ghost d: nat)
    requires ValidBase(base)
    requires |Sign(val, flags)| + |Prefix(flags, base)| + |Body(Magnitude(val, flags), flags, base, prec)| < INT_LIMIT
    ensures minus == IsNegative(val, flags) && v == Magnitude(val, flags) && tickskip > 0
    ensures Grouped(Digits(v, base, flags.upper, d), tickskip) == Body(v, flags, base, prec)
    ensures ndigits == |Body(v, flags, base, prec)|
    ensures nchars == |Sign(val, flags)| + |Prefix(flags, base)| + ndigits
  {
    hide Body, Grouped, Digits;
    v, minus := val, false;
    if flags.signed && Signed32(val) < 0 {
      minus := true;
      v := Negate32(Signed32(val)) % TWO_32;
    }
    ndigits, tickskip, d := MeasureBody(v, flags, base, prec);
    nchars := ndigits;
    if minus || flags.plus || flags.space {
      nchars := nchars + 1;
    }
    if flags.hash && base == 16 {
      nchars := nchars + 2;
    }
  }

  /** Prints one integer field, whose length must be an int; writes at most n characters at q and
      returns the field's length. */
  method FormatInt(mem: array<char>, q: Word, n: Word, val: Word, flags: Flags, base: nat, width: Int, prec: Int)
    returns (o: Word)
    requires mem.Length == TWO_32 && ValidBase(base) && |Field(val, flags, base, width, prec)| < INT_LIMIT
    modifies mem
    ensures o == |Field(val, flags, base, width, prec)|
    ensures mem[..] == Overlay(old(mem[..]), q, n, Field(val, flags, base, width, prec))
  {
    hide Cursor, Play, Place, Ones, Lead;
    ghost var before: Memory := mem[..];
    ghost var sign, prefix := Sign(val, flags), Prefix(flags, base);
    PartsFit(val, flags, base, width, prec);
    var minus, v, ndigits, nchars, tickskip, d := Measure(val, flags, base, prec);
    ghost var body := Body(v, flags, base, prec);
    ghost var lead, trail := Lead(sign, prefix, ndigits, flags, width), Trail(sign, prefix, ndigits, flags, width);
    assert Field(val, flags, base, width, prec) == lead + body + trail;
    var q', w;
    q', o, w := EmitLead(mem, q, n, minus, flags, base, width, ndigits, nchars, val);
    CursorAtStart(before, q, n);
    CursorOnes(Port(before, q, 0), before, q, n, "", lead);
    assert "" + lead == lead;
    q', o := WriteNumber(mem, q', o, n, v, base, flags.upper, ndigits, tickskip, d, before, q, lead);
    ghost var p := Port(mem[..], q', o);
    if flags.minus {
      q', o, w := Pad(mem, q', o, n, ' ', w, nchars);
      CursorOnes(p, before, q, n, lead + body, trail);
    } else {
      assert lead + body + "" == lead + body;
    }
    CursorOverlay(Port(mem[..], q', o), before, q, n, lead + body + trail);
  }

  lemma CursorOverlay(p: Port, before: Memory, start: Word, n: Word, text: string)
    requires Cursor(p, before, start, n, text)
    ensures p.mem == Overlay(before, start, n, text) && p.o == |text|
  {
  }
}
