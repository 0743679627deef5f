/** The formatted printer: one pass over the format, writing into a bounded buffer. */
module Printer {
  import opened Machine
  import opened Numerals
  import opened IntField
  import opened Directives
  import opened Rendering
  import opened BoundedBuffer
  import opened Overruns
  import opened IntPrinter

  // ----- strings

  method EmitChars(mem: array<char>, q: Word, o: Word, n: Word, sarg: string, slen: Int)
    returns (q': Word, o': Word)
    requires mem.Length == TWO_32 && 0 <= slen <= |sarg|
    modifies mem
    ensures Port(mem[..], q', o') == Play(Port(old(mem[..]), q, o), n, Ones(sarg[..slen]))
  {
    hide Place;
    q', o' := q, o;
    var i := slen;
    ghost var p := Port(mem[..], q, o);
    PlayNothing(p, n);
    while i != 0
      invariant 0 <= i <= slen
      invariant Port(mem[..], q', o') == Play(p, n, Ones(sarg[..slen - i]))
    {
      q', o' := Emit(mem, q', o', n, sarg[slen - i]);
      PlaySnoc(p, n, sarg[..slen - i], sarg[slen - i]);
      i := i - 1;
      assert sarg[..slen - i] == sarg[..slen - i - 1] + [sarg[slen - i - 1]];
    }
  }

  method EmitString(mem: array<char>, q: Word, o: Word, n: Word, sarg: string, flags: Flags, width: Int, prec: Int)
    returns (q': Word, o': Word)
    requires mem.Length == TWO_32 && prec >= -1 && |sarg| < INT_LIMIT
    modifies mem
    ensures Port(mem[..], q', o') == Play(Port(old(mem[..]), q, o), n, Ones(StringField(sarg, flags, width, prec)))
  {
    hide Place, Play, Ones;
    var w: Int, slen: Int := width, |sarg|;
    if prec != -1 && slen > prec {
      slen := prec;
    }
    ghost var p, pad, done := Port(mem[..], q, o), width - slen, "";
    q', o' := q, o;
    PlayNothing(p, n);
    if w > slen && !flags.minus {
      q', o', w := Pad(mem, q', o', n, if flags.zero then '0' else ' ', w, slen);
      done := Fill(if flags.zero then '0' else ' ', pad);
    }
    q', o' := EmitChars(mem, q', o', n, sarg, slen);
    PlayOnes(p, n, done, sarg[..slen]);
    done := done + sarg[..slen];
    if w > slen && flags.minus {
      q', o', w := Pad(mem, q', o', n, ' ', w, slen);
      PlayOnes(p, n, done, Fill(' ', pad));
      done := done + Fill(' ', pad);
    }
    StringFieldByBranch(sarg[..slen], flags, pad);
    assert StringField(sarg, flags, width, prec) == Padded(sarg[..slen], flags, pad) by {
      assert sarg[..|sarg|] == sarg;
    }
  }

  lemma StringFieldByBranch(cut: string, flags: Flags, pad: int)
    ensures var c := if flags.zero then '0' else ' ';
            Padded(cut, flags, pad)
            == if pad > 0 && !flags.minus then Fill(c, pad) + cut
               else if pad > 0 && flags.minus then "" + cut + Fill(' ', pad)
               else "" + cut
  {
  }

  // ----- one conversion

  method EmitInteger(mem: array<char>, q: Word, o: Word, n: Word, val: Word, flags: Flags, base: nat,
                     width: Int, prec: Int) returns (q': Word, o': Word)
    requires mem.Length == TWO_32 && ValidBase(base) && |Field(val, flags, base, width, prec)| < INT_LIMIT
    modifies mem
    ensures Port(mem[..], q', o') == Place(Port(old(mem[..]), q, o), n, Whole(Field(val, flags, base, width, prec)))
  {
    var sz := FormatInt(mem, q, if o < n then n - o else 0, val, flags, base, width, prec);
    q', o' := Add32(q, sz), Add32(o, sz);
  }

  /** Fetches the argument of an integer conversion and completes its options. */
  method FetchInteger(ch: char, s: Settings, rank: int, env: Env)
    returns (val: Word, flags: Flags, base: nat, prec: Int, next': nat)
    requires IsIntegerConv(ch) && rank == ClampRank(s.rank)
    ensures ValidBase(base) && next' == IntegerEffect(ch, s, rank, env).next
    ensures Field(val, flags, base, s.width, prec) == IntegerEffect(ch, s, rank, env).text
  {
    hide Field, CutSigned, CutUnsigned;
    val, flags, base, prec := env.word(s.next), s.flags, 10, s.prec;
    if ch == 'P' || ch == 'p' {
      flags := flags.(upper := flags.upper || ch == 'P', hash := true);
      base, prec, next' := 16, 8, s.next + 1;
    } else if ch == 'd' || ch == 'i' {
      flags := flags.(signed := true);
      val, next' := CutSigned(val, rank), s.next + WordsOf(rank);
    } else {
      if ch == 'X' {
        flags := flags.(upper := true);
      }
      base := if ch == 'o' then 8 else if ch == 'u' then 10 else 16;
      val, next' := CutUnsigned(val, rank), s.next + WordsOf(rank);
    }
    assert flags == IntegerFlags(ch, s.flags) && base == BaseOf(ch);
    assert val == IntegerValue(ch, env.word(s.next), rank);
  }

  /** An integer conversion writes its text as one field, all others character by character. */
  function TextPuts(field: bool, text: string): seq<Put> {
    if field then [Whole(text)] else Ones(text)
  }

  lemma PlayField(p: Port, n: Word, text: string)
    ensures Play(p, n, TextPuts(true, text)) == Place(p, n, Whole(text))
  {
    assert [Whole(text)][..0] == [];
  }

  /** The terminal characters of a directive, with `count` characters written so far. */
  method ConvertArgument(mem: array<char>, q: Word, o: Word, n: Word, ch: char, s: Settings, env: Env, ghost count: nat)
    returns (q': Word, o': Word, next': nat, stores: seq<Store>)
    requires mem.Length == TWO_32 && o == count % TWO_32 && Supported(ch, s, env)
    modifies mem
    ensures var e := Convert(ch, s, env, count);
            && Port(mem[..], q', o') == Play(Port(old(mem[..]), q, o), n, TextPuts(IsIntegerConv(ch), e.text))
            && next' == e.next && stores == e.stores
  {
    hide Place, Play, Ones, Field, StringField;
    var rank := s.rank;
    if rank < RANK_CHAR {
      rank := RANK_CHAR;
    } else if rank > RANK_LONGLONG {
      rank := RANK_LONGLONG;
    }
    assert rank == ClampRank(s.rank);
    ghost var p := Port(mem[..], q, o);
    q', o', next', stores := q, o, s.next, [];
    if IsIntegerConv(ch) {
      var val, flags, base, prec;
      val, flags, base, prec, next' := FetchInteger(ch, s, rank, env);
      q', o' := EmitInteger(mem, q', o', n, val, flags, base, s.width, prec);
      PlayField(p, n, Field(val, flags, base, s.width, prec));
    } else if ch == 'c' || ch == 's' {
      var sarg := StringArgument(ch, env.word(next'), env);
      next' := next' + 1;
      q', o' := EmitString(mem, q', o', n, sarg, s.flags, s.width, s.prec);
    } else if ch == 'n' {
      stores, next' := [Store(env.word(next'), rank, StoredCount(o', rank))], next' + 1;
      PlayNothing(p, n);
    } else {
      q', o' := EmitFirst(mem, q', o', n, ch);
    }
  }

  /** What a list of items puts, in order. */
  function PutsOf(items: seq<Item>, env: Env, next: nat): seq<Put> {
    if items == [] then []
    else
      var e := ItemEffect(items[0], env, next, 0);
      TextPuts(IsField(items[0]), e.text) + PutsOf(items[1..], env, e.next)
  }

  predicate IsField(item: Item) {
    item.Directive? && IsIntegerConv(item.conv)
  }

  // ----- the format loop

  datatype State = Normal | InFlags | InWidth | InPrec | InModifiers

  /** How far each state is from the end of a directive: re-reading a character lowers it. */
  function StateRank(state: State): nat {
    match state
    case Normal => 0
    case InModifiers => 1
    case InPrec => 2
    case InWidth => 3
    case InFlags => 4
  }

  /** The parts of the current directive read so far, and the argument index it started at. */
  datatype Progress = Progress(flags: string, width: string, dot: bool, prec: string, mods: string, next: nat)

  const NO_PROGRESS := Progress("", "", false, "", "", 0)

  /** The items still to come. */
  ghost function Remaining(state: State, g: Progress, tail: string): seq<Item> {
    match state
    case Normal => Parse(tail)
    case InFlags => ParseFlags(tail, g.flags)
    case InWidth => ParseWidth(tail, g.flags, g.width)
    case InPrec => ParsePrec(tail, g.flags, g.width, g.prec)
    case InModifiers => ParseModifiers(tail, g.flags, g.width, g.dot, g.prec, g.mods)
  }

  function PartialItem(g: Progress): Item {
    Directive(g.flags, g.width, g.dot, g.prec, g.mods, '%')
  }

  /** The parts a state has not reached yet are empty, and the options are those of the parts read. */
  ghost predicate Agrees(state: State, g: Progress, s: Settings, env: Env) {
    && (state == InFlags ==> g.width == "")
    && (state == InFlags || state == InWidth ==> !g.dot && g.prec == "")
    && (state == InPrec ==> g.dot)
    && (state != InModifiers ==> g.mods == "")
    && (state != Normal ==> s == SettingsOf(PartialItem(g), env, g.next))
  }

  /** Rendering the rest of the format completes the whole output, and so do its puts. */
  ghost predicate Completes(whole: Output, all: seq<Put>, text: string, stores: seq<Store>, puts: seq<Put>,
                            items: seq<Item>, env: Env, next: nat) {
    var rest := Render(items, env, next, |text|);
    && whole.text == text + rest.text && whole.stores == stores + rest.stores
    && all == puts + PutsOf(items, env, next)
    && Renderable(items, env, next)
  }

  function NextArgument(state: State, g: Progress, s: Settings): nat {
    if state == Normal then s.next else g.next
  }

  lemma PutsCons(first: Item, others: seq<Item>, env: Env, next: nat, count: nat)
    ensures var e := ItemEffect(first, env, next, count);
            PutsOf([first] + others, env, next) == TextPuts(IsField(first), e.text) + PutsOf(others, env, e.next)
  {
    assert ([first] + others)[1..] == others;
  }

  /** An item at the head of the rest moves into what has been printed. */
  lemma CompletesStep(whole: Output, all: seq<Put>, text: string, stores: seq<Store>, puts: seq<Put>,
                      first: Item, others: seq<Item>, env: Env, next: nat)
    requires Completes(whole, all, text, stores, puts, [first] + others, env, next)
    ensures var e := ItemEffect(first, env, next, |text|);
            Completes(whole, all, text + e.text, stores + e.stores, puts + TextPuts(IsField(first), e.text),
                      others, env, e.next)
    ensures ItemSupported(first, env, next)
  {
    hide ItemEffect, SettingsOf, Render, Renderable, ItemSupported, PutsOf, TextPuts, IsField;
    RenderCons(first, others, env, next, |text|);
    RenderableCons(first, others, env, next, |text|);
    PutsCons(first, others, env, next, |text|);
    var e := ItemEffect(first, env, next, |text|);
    var rest := Render(others, env, e.next, |text + e.text|);
    AppendAssoc(text, e.text, rest.text);
    AppendAssoc(stores, e.stores, rest.stores);
    AppendAssoc(puts, TextPuts(IsField(first), e.text), PutsOf(others, env, e.next));
  }

  /** The next option character, in the states that collect options. */
  function AddOption(state: State, g: Progress, c: char): Progress {
    match state
    case InFlags => g.(flags := g.flags + [c])
    case InWidth => if c == '.' then g.(dot := true) else g.(width := g.width + [c])
    case InPrec => g.(prec := g.prec + [c])
    case InModifiers => g.(mods := g.mods + [c])
    case Normal => g
  }

  function OptionState(state: State, c: char): State {
    if state == InWidth && c == '.' then InPrec else state
  }

  predicate TakesOption(state: State, c: char) {
    match state
    case InFlags => IsFlag(c)
    case InWidth => IsCount(c) || c == '.'
    case InPrec => IsCount(c)
    case InModifiers => IsModifier(c)
    case Normal => false
  }

  /** What one option character does to the options. */
  function OptionStep(state: State, s: Settings, c: char, env: Env): Settings {
    match state
    case InFlags => s.(flags := AddFlag(s.flags, c))
    case InWidth => if c == '.' then s.(prec := 0) else WidthStep(s, c, env)
    case InPrec => PrecStep(s, c, env)
    case InModifiers => s.(rank := RankStep(s.rank, c))
    case Normal => s
  }

  lemma FlagsOfSnoc(t: string, c: char)
    requires IsFlag(c)
    ensures FlagsOf(t + [c]) == AddFlag(FlagsOf(t), c)
  {
    forall d
      ensures d in t + [c] <==> d in t || d == c
    {
      if d in t {
        var i :| 0 <= i < |t| && t[i] == d;
        assert (t + [c])[i] == d;
      }
      assert (t + [c])[|t|] == c;
    }
  }

  lemma WidthSnoc(s: Settings, t: string, c: char, env: Env)
    ensures AfterWidth(s, t + [c], env) == WidthStep(AfterWidth(s, t, env), c, env)
  {
    assert (t + [c])[..|t|] == t;
  }

  lemma PrecSnoc(s: Settings, t: string, c: char, env: Env)
    ensures AfterPrec(s, t + [c], env) == PrecStep(AfterPrec(s, t, env), c, env)
  {
    assert (t + [c])[..|t|] == t;
  }

  lemma RankSnoc(t: string, c: char)
    ensures RankOf(t + [c]) == RankStep(RankOf(t), c)
  {
    assert (t + [c])[..|t|] == t;
  }

  lemma StepsKeepRank(s: Settings, c: char, env: Env, rank: Int)
    ensures WidthStep(s.(rank := rank), c, env) == WidthStep(s, c, env).(rank := rank)
    ensures PrecStep(s.(rank := rank), c, env) == PrecStep(s, c, env).(rank := rank)
  {
  }

  lemma OptionAgrees(state: State, g: Progress, s: Settings, c: char, env: Env)
    requires Agrees(state, g, s, env) && TakesOption(state, c)
    ensures Agrees(OptionState(state, c), AddOption(state, g, c), OptionStep(state, s, c, env), env)
  {
    hide FlagsOf, AddFlag, WidthStep, PrecStep, RankStep, IsFlag, IsCount, IsModifier;
    var start := Settings(FlagsOf(g.flags), 0, -1, RANK_INT, g.next);
    var wide := AfterWidth(start, g.width, env);
    match state
    case InFlags => FlagsOfSnoc(g.flags, c);
    case InWidth =>
      WidthSnoc(start, g.width, c, env);
      StepsKeepRank(wide, c, env, RANK_INT);
    case InPrec =>
      PrecSnoc(wide.(prec := 0), g.prec, c, env);
      StepsKeepRank(AfterPrec(wide.(prec := 0), g.prec, env), c, env, RANK_INT);
    case InModifiers => RankSnoc(g.mods, c);
  }

  lemma OptionRemaining(state: State, g: Progress, tail: string)
    requires tail != "" && TakesOption(state, tail[0]) && (state == InWidth ==> g.prec == "")
    ensures Remaining(state, g, tail) == Remaining(OptionState(state, tail[0]), AddOption(state, g, tail[0]), tail[1..])
  {
  }

  function NextState(state: State): State {
    match state
    case InFlags => InWidth
    case InWidth => InModifiers
    case _ => InModifiers
  }

  /** A character that a state does not take is read again by the next state. */
  lemma RereadRemaining(state: State, g: Progress, s: Settings, tail: string, env: Env)
    requires tail != "" && Agrees(state, g, s, env) && !TakesOption(state, tail[0])
    requires state == InFlags || state == InWidth || state == InPrec
    ensures Remaining(state, g, tail) == Remaining(NextState(state), g, tail)
    ensures Agrees(NextState(state), g, s, env)
  {
  }

  /** One character in a state that collects options: taken, or left for the next state. */
  method ReadOption(state: State, s: Settings, ch: char, env: Env) returns (state': State, s': Settings, again: bool)
    requires state == InFlags || state == InWidth || state == InPrec
    ensures again == !TakesOption(state, ch)
    ensures again ==> state' == NextState(state) && s' == s
    ensures !again ==> state' == OptionState(state, ch) && s' == OptionStep(state, s, ch, env)
  {
    state', s', again := state, s, false;
    match state
    case InFlags =>
      if ch == '-' {
        s' := s.(flags := s.flags.(minus := true));
      } else if ch == '+' {
        s' := s.(flags := s.flags.(plus := true));
      } else if ch == '\'' {
        s' := s.(flags := s.flags.(tick := true));
      } else if ch == ' ' {
        s' := s.(flags := s.flags.(space := true));
      } else if ch == '#' {
        s' := s.(flags := s.flags.(hash := true));
      } else if ch == '0' {
        s' := s.(flags := s.flags.(zero := true));
      } else {
        state', again := InWidth, true;
      }
    case InWidth =>
      if '0' <= ch <= '9' {
        s' := s.(width := ToInt(s.width * 10 + (ch as int - '0' as int)));
      } else if ch == '*' {
        s' := s.(width := Signed32(env.word(s.next)), next := s.next + 1);
        if s'.width < 0 {
          s' := s'.(width := Negate32(s'.width), flags := s'.flags.(minus := true));
        }
      } else if ch == '.' {
        state', s' := InPrec, s.(prec := 0);
      } else {
        state', again := InModifiers, true;
      }
    case InPrec =>
      if '0' <= ch <= '9' {
        s' := s.(prec := ToInt(s.prec * 10 + (ch as int - '0' as int)));
      } else if ch == '*' {
        s' := s.(prec := Signed32(env.word(s.next)), next := s.next + 1);
        if s'.prec < 0 {
          s' := s'.(prec := -1);
        }
      } else {
        state', again := InModifiers, true;
      }
  }

  /** A length modifier changes the rank; any other character ends the directive. */
  method ReadModifier(rank: Int, ch: char) returns (rank': Int, taken: bool)
    ensures taken == IsModifier(ch)
    ensures rank' == if taken then RankStep(rank, ch) else rank
  {
    rank', taken := rank, true;
    match ch
    case 'h' => rank' := ToInt(rank - 1);
    case 'l' => rank' := ToInt(rank + 1);
    case 'j' => rank' := RANK_LONGLONG;
    case 'z' => rank' := RANK_LONG;
    case 't' => rank' := RANK_LONG;
    case 'L' => rank' := ToInt(rank + 2);
    case 'q' => rank' := ToInt(rank + 2);
    case _ => taken := false;
  }

  /** The buffer after printing text: cut to the capacity and terminated, the rest as before. */
  function Snapshot(before: seq<char>, n: nat, text: string): seq<char>
    requires n <= |before|
  {
    if n == 0 then before
    else
      var k := Min(|text|, n - 1);
      text[..k] + ['\0'] + before[k + 1..]
  }

  method Terminate(mem: array<char>, q: Word, o: Word, n: Word)
    requires mem.Length == TWO_32
    modifies mem
    ensures mem[..] == Finish(Port(old(mem[..]), q, o), n)
  {
    if o < n {
      mem[q] := '\0';
    } else if n > 0 {
      mem[n - 1] := '\0';
    }
  }

  /** The conversion character completes the current directive. */
  lemma FinishDirective(whole: Output, all: seq<Put>, text: string, stores: seq<Store>, puts: seq<Put>,
                        g: Progress, s: Settings, tail: string, env: Env)
    requires tail != "" && !IsModifier(tail[0]) && Agrees(InModifiers, g, s, env)
    requires Completes(whole, all, text, stores, puts, Remaining(InModifiers, g, tail), env, g.next)
    ensures var e := Convert(tail[0], s, env, |text|);
            Completes(whole, all, text + e.text, stores + e.stores, puts + TextPuts(IsIntegerConv(tail[0]), e.text),
                      Parse(tail[1..]), env, e.next)
    ensures Supported(tail[0], s, env)
  {
    hide Completes, TextPuts, Supported, Convert;
    var item := Directive(g.flags, g.width, g.dot, g.prec, g.mods, tail[0]);
    CompletesStep(whole, all, text, stores, puts, item, Parse(tail[1..]), env, g.next);
    assert SettingsOf(item, env, g.next) == SettingsOf(PartialItem(g), env, g.next);
  }

  /** The variables of the format loop: positions in format and buffer, count, state, options. */
  datatype Locals = Locals(p: nat, q: Word, o: Word, state: State, s: Settings, stores: seq<Store>)

  /** What has been written so far: text, put by put, from a memory on. */
  ghost predicate Written(mem: array<char>, before: Memory, n: Word, q: Word, o: Word, text: string, puts: seq<Put>)
    reads mem
  {
    && mem.Length == TWO_32 && Port(mem[..], q, o) == Play(Port(before, 0, 0), n, puts)
    && o == |text| % TWO_32
  }

  ghost predicate LoopState(mem: array<char>, before: Memory, n: Word, format: string, env: Env,
                            m: Locals, g: Progress, text: string, puts: seq<Put>)
    reads mem
  {
    && m.p <= |format| && Written(mem, before, n, m.q, m.o, text, puts) && Agrees(m.state, g, m.s, env)
    && Completes(Printed(format, env), PutsOf(Parse(format), env, 0), text, m.stores, puts,
                 Remaining(m.state, g, format[m.p..]), env, NextArgument(m.state, g, m.s))
  }

  /** More text, put by put. */
  lemma WrittenMore(mem: array<char>, was: Memory, before: Memory, n: Word, q: Word, o: Word, q': Word, o': Word,
                    text: string, puts: seq<Put>, more: string, field: bool)
    requires mem.Length == TWO_32 && Port(was, q, o) == Play(Port(before, 0, 0), n, puts) && o == |text| % TWO_32
    requires Port(mem[..], q', o') == Play(Port(was, q, o), n, TextPuts(field, more))
    ensures Written(mem, before, n, q', o', text + more, puts + TextPuts(field, more))
  {
    hide Place;
    PlayConcat(Port(before, 0, 0), n, puts, TextPuts(field, more));
    CountAfter(Port(was, q, o), n, field, more);
    AddMod(|text|, |more|);
  }

  lemma CountAfter(p: Port, n: Word, field: bool, more: string)
    ensures Play(p, n, TextPuts(field, more)).o == Add32(p.o, |more|)
  {
    if field {
      PlayField(p, n, more);
    } else {
      OnesCount(p, n, more);
    }
  }

  lemma PlaceCount(p: Port, n: Word, c: char)
    ensures Place(p, n, One(c)).o == Add32(p.o, 1)
  {
  }

  lemma {:induction false} OnesCount(p: Port, n: Word, text: string)
    ensures Play(p, n, Ones(text)).o == Add32(p.o, |text|)
  {
    hide Place, Ones;
    if text == "" {
      PlayNothing(p, n);
    } else {
      var init := text[..|text| - 1];
      OnesCount(p, n, init);
      PlaySnoc(p, n, init, text[|text| - 1]);
      assert init + [text[|text| - 1]] == text;
      PlaceCount(Play(p, n, Ones(init)), n, text[|text| - 1]);
      AddMod(p.o + |init|, 1);
    }
  }

  /** Ground state: a percent sign opens a directive, anything else is printed. */
  method StepNormal(mem: array<char>, n: Word, format: string, env: Env, m: Locals,
                    ghost before: Memory, ghost g: Progress, ghost text: string, ghost puts: seq<Put>)
    returns (m': Locals, ghost g': Progress, ghost text': string, ghost puts': seq<Put>)
    requires m.state == Normal && m.p < |format| && LoopState(mem, before, n, format, env, m, g, text, puts)
    modifies mem
    ensures m'.p == m.p + 1 && LoopState(mem, before, n, format, env, m', g', text', puts')
  {
    hide Play, Place, Parse, Render, Renderable, PutsOf, Printed, AddFlag;
    var ch := format[m.p];
    ghost var tail := format[m.p..];
    assert tail[0] == ch && tail[1..] == format[m.p + 1..];
    m', g', text', puts' := m.(p := m.p + 1), NO_PROGRESS, text, puts;
    ParseFirst(tail);
    if ch == '%' {
      m' := m'.(state := InFlags, s := Settings(NO_FLAGS, 0, -1, RANK_INT, m.s.next));
      g' := NO_PROGRESS.(next := m.s.next);
    } else {
      ghost var was := mem[..];
      var q, o := EmitFirst(mem, m.q, m.o, n, ch);
      WrittenMore(mem, was, before, n, m.q, m.o, q, o, text, puts, [ch], false);
      m', text', puts' := m'.(q := q, o := o), text + [ch], puts + TextPuts(false, [ch]);
      CompletesStep(Printed(format, env), PutsOf(Parse(format), env, 0), text, m.stores, puts,
                    Literal(ch), Parse(tail[1..]), env, m.s.next);
      assert m.stores + [] == m.stores;
    }
  }

  lemma ParseFirst(tail: string)
    requires tail != ""
    ensures Parse(tail) == if tail[0] == '%' then ParseFlags(tail[1..], "") else [Literal(tail[0])] + Parse(tail[1..])
  {
  }

  /** Flags, width and precision: take the character, or leave it to be read again. */
  method StepOption(mem: array<char>, n: Word, format: string, env: Env, m: Locals,
                    ghost before: Memory, ghost g: Progress, ghost text: string, ghost puts: seq<Put>)
    returns (m': Locals, ghost g': Progress)
    requires m.state == InFlags || m.state == InWidth || m.state == InPrec
    requires m.p < |format| && LoopState(mem, before, n, format, env, m, g, text, puts)
    ensures LoopState(mem, before, n, format, env, m', g', text, puts)
    ensures m'.p == m.p + 1 || (m'.p == m.p && StateRank(m'.state) < StateRank(m.state))
  {
    hide Written, Completes;
    var ch := format[m.p];
    ghost var tail := format[m.p..];
    assert tail[0] == ch && tail[1..] == format[m.p + 1..];
    var state, s, again := ReadOption(m.state, m.s, ch, env);
    if again {
      RereadRemaining(m.state, g, m.s, tail, env);
      m', g' := m.(state := state), g;
    } else {
      OptionAgrees(m.state, g, m.s, ch, env);
      OptionRemaining(m.state, g, tail);
      m', g' := m.(p := m.p + 1, state := state, s := s), AddOption(m.state, g, ch);
    }
  }

  /** Length modifiers, and the conversion that ends a directive. */
  method StepModifier(mem: array<char>, n: Word, format: string, env: Env, m: Locals,
                      ghost before: Memory, ghost g: Progress, ghost text: string, ghost puts: seq<Put>)
    returns (m': Locals, ghost g': Progress, ghost text': string, ghost puts': seq<Put>)
    requires m.state == InModifiers && m.p < |format| && LoopState(mem, before, n, format, env, m, g, text, puts)
    modifies mem
    ensures m'.p == m.p + 1 && LoopState(mem, before, n, format, env, m', g', text', puts')
  {
    hide Completes, Convert, TextPuts, Play;
    var ch := format[m.p];
    ghost var tail := format[m.p..];
    assert tail[0] == ch && tail[1..] == format[m.p + 1..];
    m', text', puts' := m.(p := m.p + 1), text, puts;
    var rank, taken := ReadModifier(m.s.rank, ch);
    if taken {
      OptionAgrees(InModifiers, g, m.s, ch, env);
      OptionRemaining(InModifiers, g, tail);
      m', g' := m'.(s := m.s.(rank := rank)), AddOption(InModifiers, g, ch);
    } else {
      FinishDirective(Printed(format, env), PutsOf(Parse(format), env, 0), text, m.stores, puts, g, m.s, tail, env);
      ghost var was, e := mem[..], Convert(ch, m.s, env, |text|);
      var q, o, next, more := ConvertArgument(mem, m.q, m.o, n, ch, m.s, env, |text|);
      WrittenMore(mem, was, before, n, m.q, m.o, q, o, text, puts, e.text, IsIntegerConv(ch));
      m' := m'.(q := q, o := o, state := Normal, s := m.s.(next := next), stores := m.stores + more);
      g', text', puts' := NO_PROGRESS, text + e.text, puts + TextPuts(IsIntegerConv(ch), e.text);
    }
  }

  /** The single pass: puts the parsed format item by item and terminates it, and returns the length
      of its rendering. Shorter than 2^32, exactly the rendering is stored, cut to n and terminated. */
  method Vsnprintf(mem: array<char>, n: Word, format: string, env: Env) returns (rv: Word, stores: seq<Store>)
    requires mem.Length == TWO_32 && Renderable(Parse(format), env, 0)
    modifies mem
    ensures rv == |Printed(format, env).text| % TWO_32 && stores == Printed(format, env).stores
    ensures mem[..] == Final(old(mem[..]), n, PutsOf(Parse(format), env, 0))
    ensures Countable(Printed(format, env).text) ==> mem[..] == Snapshot(old(mem[..]), n, Printed(format, env).text)
    ensures !LeavesBuffer(n, PutsOf(Parse(format), env, 0)) ==> forall i :: n <= i < TWO_32 ==> mem[i] == old(mem[i])
  {
    hide LoopState, Play, Printed, Finish, Snapshot, LeavesBuffer;
    ghost var before: Memory, text, puts, g := mem[..], "", [], NO_PROGRESS;
    var m := Locals(0, 0, 0, Normal, Settings(NO_FLAGS, 0, -1, RANK_INT, 0), []);
    LoopStarts(mem, before, n, format, env);
    while m.p < |format|
      invariant LoopState(mem, before, n, format, env, m, g, text, puts) && m.p <= |format|
      decreases |format| - m.p, StateRank(m.state)
    {
      if m.state == Normal {
        m, g, text, puts := StepNormal(mem, n, format, env, m, before, g, text, puts);
      } else if m.state == InModifiers {
        m, g, text, puts := StepModifier(mem, n, format, env, m, before, g, text, puts);
      } else {
        m, g := StepOption(mem, n, format, env, m, before, g, text, puts);
      }
      InFormat(mem, before, n, format, env, m, g, text, puts);
    }
    LoopEnds(mem, before, n, format, env, m, g, text, puts);
    Terminate(mem, m.q, m.o, n);
    rv, stores := m.o, m.stores;
    FinalText(before, n, format, env);
    FinalOutside(before, n, PutsOf(Parse(format), env, 0));
  }

  lemma LoopStarts(mem: array<char>, before: Memory, n: Word, format: string, env: Env)
    requires mem.Length == TWO_32 && mem[..] == before && Renderable(Parse(format), env, 0)
    ensures LoopState(mem, before, n, format, env,
                      Locals(0, 0, 0, Normal, Settings(NO_FLAGS, 0, -1, RANK_INT, 0), []), NO_PROGRESS, "", [])
  {
    hide Parse, Render, PutsOf, Renderable;
    assert format[0..] == format;
    PlayEmpty(Port(before, 0, 0), n);
    assert |""| % TWO_32 == 0;
    var all := Render(Parse(format), env, 0, 0);
    assert "" + all.text == all.text && [] + all.stores == all.stores;
    assert [] + PutsOf(Parse(format), env, 0) == PutsOf(Parse(format), env, 0);
  }

  lemma InFormat(mem: array<char>, before: Memory, n: Word, format: string, env: Env, m: Locals, g: Progress,
                 text: string, puts: seq<Put>)
    requires LoopState(mem, before, n, format, env, m, g, text, puts)
    ensures m.p <= |format|
  {
  }

  lemma LoopEnds(mem: array<char>, before: Memory, n: Word, format: string, env: Env, m: Locals, g: Progress,
                 text: string, puts: seq<Put>)
    requires LoopState(mem, before, n, format, env, m, g, text, puts) && m.p == |format|
    ensures Printed(format, env) == Output(text, m.stores) && m.o == |text| % TWO_32
    ensures mem.Length == TWO_32
    ensures Port(mem[..], m.q, m.o) == Play(Port(before, 0, 0), n, PutsOf(Parse(format), env, 0))
  {
    hide Play;
    assert format[m.p..] == "";
    assert Remaining(m.state, g, "") == [];
    assert text + "" == text && m.stores + [] == m.stores && puts + [] == puts;
  }

  // ----- the text of the puts

  function TextOf(puts: seq<Put>): string {
    if puts == [] then ""
    else
      var put := puts[|puts| - 1];
      TextOf(puts[..|puts| - 1]) + if put.One? then [put.c] else put.text
  }

  lemma {:induction false} TextConcat(a: seq<Put>, b: seq<Put>)
    ensures TextOf(a + b) == TextOf(a) + TextOf(b)
  {
    if b == [] {
      assert a + b == a && TextOf(a) + "" == TextOf(a);
    } else {
      assert (a + b)[..|a + b| - 1] == a + b[..|b| - 1];
      TextConcat(a, b[..|b| - 1]);
      var put := b[|b| - 1];
      AppendAssoc(TextOf(a), TextOf(b[..|b| - 1]), if put.One? then [put.c] else put.text);
    }
  }

  lemma {:induction false} TextOfOnes(text: string)
    ensures TextOf(Ones(text)) == text
  {
    if text != "" {
      var init := text[..|text| - 1];
      TextOfOnes(init);
      assert Ones(text)[..|text| - 1] == Ones(init);
      assert init + [text[|text| - 1]] == text;
    }
  }

  lemma TextOfPuts(field: bool, text: string)
    ensures TextOf(TextPuts(field, text)) == text
  {
    if field {
      assert [Whole(text)][..0] == [] && "" + text == text;
    } else {
      TextOfOnes(text);
    }
  }

  /** The puts of a list of items are its rendering, cut into pieces. */
  lemma {:induction false} PutsText(items: seq<Item>, env: Env, next: nat, count: nat)
    ensures TextOf(PutsOf(items, env, next)) == Render(items, env, next, count).text
  {
    hide ItemEffect, TextPuts, TextOf;
    if items == [] {
      NoText();
    } else {
      var first, others := items[0], items[1..];
      assert items == [first] + others;
      var e := ItemEffect(first, env, next, count);
      PutsCons(first, others, env, next, count);
      RenderCons(first, others, env, next, count);
      PutsText(others, env, e.next, count + |e.text|);
      TextOfPuts(IsField(first), e.text);
      TextConcat(TextPuts(IsField(first), e.text), PutsOf(others, env, e.next));
    }
  }

  lemma NoText()
    ensures TextOf([]) == ""
  {
  }

  lemma {:induction false} CountIsLength(puts: seq<Put>)
    ensures Count(puts) == |TextOf(puts)|
  {
    if puts != [] {
      CountIsLength(puts[..|puts| - 1]);
    }
  }

  /** Texts a word can count are stored from the start of the buffer on, cut to its cells. */
  lemma {:induction false} CursorPuts(before: Memory, n: Word, puts: seq<Put>)
    requires Countable(TextOf(puts))
    ensures Cursor(Play(Port(before, 0, 0), n, puts), before, 0, n, TextOf(puts))
  {
    hide Cursor, Place, Play;
    if puts == [] {
      PlayEmpty(Port(before, 0, 0), n);
      CursorAtStart(before, 0, n);
    } else {
      var init, put := puts[..|puts| - 1], puts[|puts| - 1];
      CursorPuts(before, n, init);
      PlayLast(Port(before, 0, 0), n, puts);
      var p := Play(Port(before, 0, 0), n, init);
      match put
      case One(c) => CursorOne(p, before, 0, n, TextOf(init), c);
      case Whole(field) => CursorWhole(p, before, 0, n, TextOf(init), field);
    }
  }

  lemma FinishSnapshot(p: Port, before: Memory, n: Word, text: string)
    requires Cursor(p, before, 0, n, text)
    ensures Finish(p, n) == Snapshot(before, n, text)
  {
  }

  lemma FinalText(before: Memory, n: Word, format: string, env: Env)
    ensures var text := Printed(format, env).text;
            Countable(text) ==> Final(before, n, PutsOf(Parse(format), env, 0)) == Snapshot(before, n, text)
  {
    hide Parse, PutsOf, Play, Finish, Snapshot, Cursor;
    var puts := PutsOf(Parse(format), env, 0);
    PutsText(Parse(format), env, 0, 0);
    if Countable(TextOf(puts)) {
      CursorPuts(before, n, puts);
      FinishSnapshot(Play(Port(before, 0, 0), n, puts), before, n, TextOf(puts));
    }
  }

  lemma FinalOutside(before: Memory, n: Word, puts: seq<Put>)
    ensures !LeavesBuffer(n, puts) ==> forall i :: n <= i < TWO_32 ==> Final(before, n, puts)[i] == before[i]
  {
    StaysInsideIff(n, puts);
  }
}
