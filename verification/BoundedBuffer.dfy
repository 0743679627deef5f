/** A caller's buffer of n cells in 32-bit memory: every character is counted, and stored while the
    count is below n. Counts and addresses wrap around. */
module BoundedBuffer {
  import opened Machine

  /** All of memory, numbered from the first cell of the caller's buffer on. */
  type Memory = m: seq<char> | |m| == 0x1_0000_0000 witness seq(0x1_0000_0000, _ => ' ')

  // ----- the write discipline as a function

  /** Memory, the write cursor, and the count of characters. */
  datatype Port = Port(mem: Memory, q: Word, o: Word)

  /** A single character, or an integer field, which counts its own characters. */
  datatype Put = One(c: char) | Whole(text: string)

  /** Cell i after storing the first n characters of text from start on. */
  function Cell(before: Memory, start: Word, n: Word, text: string, i: Word): char {
    var d := Sub32(i, start);
    if d < n && d < |text| then text[d] else before[i]
  }

  function Overlay(before: Memory, start: Word, n: Word, text: string): Memory {
    seq(TWO_32, i requires 0 <= i < TWO_32 => Cell(before, start, n, text, i))
  }

  /** How many cells are left at count o. */
  function Left(n: Word, o: Word): Word {
    if o < n then n - o else 0
  }

  /** A single character moves the cursor if it is stored, a field always does. */
  function Place(p: Port, n: Word, put: Put): Port {
    match put
    case One(c) => if p.o < n then Port(p.mem[p.q := c], Add32(p.q, 1), Add32(p.o, 1)) else p.(o := Add32(p.o, 1))
    case Whole(text) => Port(Overlay(p.mem, p.q, Left(n, p.o), text), Add32(p.q, |text|), Add32(p.o, |text|))
  }

  function Play(p: Port, n: Word, puts: seq<Put>): Port {
    if puts == [] then p else Place(Play(p, n, puts[..|puts| - 1]), n, puts[|puts| - 1])
  }

  function Ones(text: string): seq<Put> {
    seq(|text|, i requires 0 <= i < |text| => One(text[i]))
  }

  lemma OnesConcat(a: string, b: string)
    ensures Ones(a + b) == Ones(a) + Ones(b)
  {
  }

  lemma {:induction false} PlayConcat(p: Port, n: Word, a: seq<Put>, b: seq<Put>)
    ensures Play(p, n, a + b) == Play(Play(p, n, a), n, b)
  {
    if b == [] {
      assert a + b == a;
    } else {
      assert (a + b)[..|a + b| - 1] == a + b[..|b| - 1];
      PlayConcat(p, n, a, b[..|b| - 1]);
    }
  }

  lemma PlayOnes(p: Port, n: Word, a: string, b: string)
    ensures Play(p, n, Ones(a + b)) == Play(Play(p, n, Ones(a)), n, Ones(b))
  {
    OnesConcat(a, b);
    PlayConcat(p, n, Ones(a), Ones(b));
  }

  lemma PlaySnoc(p: Port, n: Word, a: string, c: char)
    ensures Play(p, n, Ones(a + [c])) == Place(Play(p, n, Ones(a)), n, One(c))
  {
    assert Ones(a + [c])[..|a|] == Ones(a);
  }

  lemma PlayNothing(p: Port, n: Word)
    ensures Play(p, n, Ones("")) == p
  {
  }

  // ----- texts a word can count

  predicate Countable(text: string) {
    |text| < TWO_32
  }

  ghost predicate Holds(mem: Memory, before: Memory, start: Word, n: Word, text: string) {
    forall i :: 0 <= i < TWO_32 ==> mem[i] == Cell(before, start, n, text, i)
  }

  /** Until the count wraps, the first n characters are stored from start on, and the cursor is
      behind them as long as there is room. */
  ghost predicate Cursor(p: Port, before: Memory, start: Word, n: Word, text: string) {
    Holds(p.mem, before, start, n, text) && p.o == |text| && (p.o <= n ==> p.q == Add32(start, p.o))
  }

  lemma CursorAtStart(before: Memory, start: Word, n: Word)
    ensures Cursor(Port(before, start, 0), before, start, n, "")
  {
  }

  lemma CursorOne(p: Port, before: Memory, start: Word, n: Word, text: string, c: char)
    requires Cursor(p, before, start, n, text) && Countable(text + [c])
    ensures Cursor(Place(p, n, One(c)), before, start, n, text + [c])
  {
  }

  lemma {:induction false} CursorOnes(p: Port, before: Memory, start: Word, n: Word, text: string, more: string)
    requires Cursor(p, before, start, n, text) && Countable(text + more)
    ensures Cursor(Play(p, n, Ones(more)), before, start, n, text + more)
  {
    hide Cursor, Place;
    if more == "" {
      assert text + more == text;
      PlayNothing(p, n);
    } else {
      var init, c := more[..|more| - 1], more[|more| - 1];
      assert init + [c] == more && text + init + [c] == text + more;
      CursorOnes(p, before, start, n, text, init);
      CursorOne(Play(p, n, Ones(init)), before, start, n, text + init, c);
      PlaySnoc(p, n, init, c);
    }
  }

  lemma CursorWhole(p: Port, before: Memory, start: Word, n: Word, text: string, field: string)
    requires Cursor(p, before, start, n, text) && Countable(text + field)
    ensures Cursor(Place(p, n, Whole(field)), before, start, n, text + field)
  {
  }

  // ----- writing

  /** Emits one character, if there is room for it. */
  method Emit(mem: array<char>, q: Word, o: Word, n: Word, c: char) returns (q': Word, o': Word)
    requires mem.Length == TWO_32
    modifies mem
    ensures Port(mem[..], q', o') == Place(Port(old(mem[..]), q, o), n, One(c))
  {
    q', o' := q, o;
    if o' < n {
      mem[q'] := c;
      q' := Add32(q', 1);
    }
    o' := Add32(o', 1);
  }

  /** Emits c until width has come down to limit. */
  method Pad(mem: array<char>, q: Word, o: Word, n: Word, c: char, width: Int, limit: Int)
    returns (q': Word, o': Word, width': Int)
    requires mem.Length == TWO_32
    modifies mem
    ensures Port(mem[..], q', o') == Play(Port(old(mem[..]), q, o), n, Ones(Fill(c, width - limit)))
    ensures width' == Min(width, limit)
  {
    hide Place;
    q', o', width' := q, o, width;
    ghost var p := Port(mem[..], q, o);
    PlayNothing(p, n);
    while width' > limit
      invariant width' == width || limit <= width' < width
      invariant Port(mem[..], q', o') == Play(p, n, Ones(Fill(c, width - width')))
    {
      q', o' := Emit(mem, q', o', n, c);
      PlaySnoc(p, n, Fill(c, width - width'), c);
      width' := width' - 1;
      assert Fill(c, width - width') == Fill(c, width - width' - 1) + [c];
    }
    assert Fill(c, width - width') == Fill(c, width - limit);
  }
}
