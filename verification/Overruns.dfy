/** When writing to a bounded buffer leaves the buffer: the count of characters wraps around, and the
    cursor, which stays behind for every character that is not stored, does not wrap with it. */
module Overruns {
  import opened Machine
  import opened Arithmetic
  import opened BoundedBuffer

  /** The final NUL: behind the text, or over the last cell. */
  function Finish(p: Port, n: Word): Memory {
    if p.o < n then p.mem[p.q := '\0'] else if n > 0 then p.mem[n - 1 := '\0'] else p.mem
  }

  /** Memory after everything has been put into a buffer of n cells. */
  function Final(before: Memory, n: Word, puts: seq<Put>): Memory {
    Finish(Play(Port(before, 0, 0), n, puts), n)
  }

  function Length(put: Put): nat {
    if put.One? then 1 else |put.text|
  }

  function Count(puts: seq<Put>): nat {
    if puts == [] then 0 else Count(puts[..|puts| - 1]) + Length(puts[|puts| - 1])
  }

  /** How many single characters were not stored: each leaves the cursor one further behind the count. */
  function Dropped(n: Word, puts: seq<Put>): nat {
    if puts == [] then 0
    else
      var init, put := puts[..|puts| - 1], puts[|puts| - 1];
      Dropped(n, init) + if put.One? && Count(init) % TWO_32 >= n then 1 else 0
  }

  /** How many cells a put stores at count o. */
  function Reach(n: Word, o: Word, put: Put): nat {
    if put.One? then (if o < n then 1 else 0) else Min(|put.text|, Left(n, o))
  }

  /** The cursor at this count, with this many characters dropped. */
  function CursorAt(count: int, dropped: int): Word {
    (count - dropped) % TWO_32
  }

  /** Some of r cells stored at this count, with this many characters dropped, lie outside the buffer. */
  predicate Outside(n: Word, count: nat, dropped: nat, r: nat) {
    var o, lag := count % TWO_32, dropped % TWO_32;
    r > 0 && o < n && o < lag < o + r + TWO_32 - n
  }

  /** One of the puts stores outside the buffer. */
  predicate PutsOutside(n: Word, puts: seq<Put>) {
    puts != [] &&
    var init, put := puts[..|puts| - 1], puts[|puts| - 1];
    PutsOutside(n, init) || Outside(n, Count(init), Dropped(n, init), Reach(n, Count(init) % TWO_32, put))
  }

  /** A put or the final NUL goes outside the buffer. */
  predicate LeavesBuffer(n: Word, puts: seq<Put>) {
    PutsOutside(n, puts) || Outside(n, Count(puts), Dropped(n, puts), 1)
  }

  // ----- where the cursor is

  lemma AddMod(x: int, k: int)
    ensures (x % TWO_32 + k) % TWO_32 == (x + k) % TWO_32
  {
    var q, r := x / TWO_32, (x % TWO_32 + k) % TWO_32;
    DivMod(x, TWO_32);
    DivMod(x % TWO_32 + k, TWO_32);
    DivUnique(x + k, TWO_32, q + (x % TWO_32 + k) / TWO_32, r);
  }

  lemma {:induction false} Position(before: Memory, n: Word, puts: seq<Put>)
    ensures var p := Play(Port(before, 0, 0), n, puts);
            p.o == Count(puts) % TWO_32 && p.q == CursorAt(Count(puts), Dropped(n, puts))
  {
    if puts != [] {
      hide Place, Play, CursorAt, Length;
      var init, put := puts[..|puts| - 1], puts[|puts| - 1];
      Position(before, n, init);
      PlayLast(Port(before, 0, 0), n, puts);
      PlacePosition(Play(Port(before, 0, 0), n, init), n, put, Count(init), Dropped(n, init));
    } else {
      assert 0 % TWO_32 == 0;
    }
  }

  lemma PlacePosition(p: Port, n: Word, put: Put, count: nat, dropped: nat)
    requires p.o == count % TWO_32 && p.q == CursorAt(count, dropped)
    ensures var p' := Place(p, n, put);
            && p'.o == (count + Length(put)) % TWO_32
            && p'.q == CursorAt(count + Length(put), dropped + if put.One? && count % TWO_32 >= n then 1 else 0)
  {
    hide Overlay;
    AddMod(count, Length(put));
    AddMod(count - dropped, Length(put));
  }

  lemma PlayLast(p: Port, n: Word, puts: seq<Put>)
    requires puts != []
    ensures Play(p, n, puts) == Place(Play(p, n, puts[..|puts| - 1]), n, puts[|puts| - 1])
  {
  }

  // ----- which cells are written

  /** Cell i is one of r cells from q on. */
  predicate Among(i: Word, q: Word, r: nat) {
    Sub32(i, q) < r
  }

  predicate PutsTouch(n: Word, puts: seq<Put>, i: Word) {
    puts != [] &&
    var init, put := puts[..|puts| - 1], puts[|puts| - 1];
    || PutsTouch(n, init, i)
    || Among(i, CursorAt(Count(init), Dropped(n, init)), Reach(n, Count(init) % TWO_32, put))
  }

  predicate Touched(n: Word, puts: seq<Put>, i: Word) {
    || PutsTouch(n, puts, i)
    || if Count(puts) % TWO_32 < n then i == CursorAt(Count(puts), Dropped(n, puts)) else n > 0 && i == n - 1
  }

  /** A put writes its cells and no other, with characters that do not depend on memory. */
  lemma PlaceCell(p: Port, p': Port, n: Word, put: Put, i: Word)
    requires p.q == p'.q && p.o == p'.o
    ensures if Among(i, p.q, Reach(n, p.o, put)) then Place(p, n, put).mem[i] == Place(p', n, put).mem[i]
            else Place(p, n, put).mem[i] == p.mem[i]
  {
  }

  lemma {:induction false} PutsCell(before: Memory, before': Memory, n: Word, puts: seq<Put>, i: Word)
    ensures var m, m' := Play(Port(before, 0, 0), n, puts).mem, Play(Port(before', 0, 0), n, puts).mem;
            if PutsTouch(n, puts, i) then m[i] == m'[i] else m[i] == before[i] && m'[i] == before'[i]
  {
    hide Place, Among, Reach, CursorAt, Play;
    if puts == [] {
      PlayEmpty(Port(before, 0, 0), n);
      PlayEmpty(Port(before', 0, 0), n);
    } else {
      var init, put := puts[..|puts| - 1], puts[|puts| - 1];
      PutsCell(before, before', n, init, i);
      Position(before, n, init);
      Position(before', n, init);
      var p, p' := Play(Port(before, 0, 0), n, init), Play(Port(before', 0, 0), n, init);
      PlaceCell(p, p', n, put, i);
      PlaceCell(p', p, n, put, i);
      PlayLast(Port(before, 0, 0), n, puts);
      PlayLast(Port(before', 0, 0), n, puts);
    }
  }

  lemma PlayEmpty(p: Port, n: Word)
    ensures Play(p, n, []) == p
  {
  }

  /** A touched cell ends with the same character whatever memory held, any other keeps its own. */
  lemma FinalCell(before: Memory, before': Memory, n: Word, puts: seq<Put>, i: Word)
    ensures if Touched(n, puts, i) then Final(before, n, puts)[i] == Final(before', n, puts)[i]
            else Final(before, n, puts)[i] == before[i]
  {
    hide Play, PutsTouch;
    PutsCell(before, before', n, puts, i);
    Position(before, n, puts);
    Position(before', n, puts);
  }

  /** A run of cells from the cursor on, with room for it in the buffer, leaves the buffer exactly
      when the lag puts it in front of the buffer and not a whole round behind it. */
  lemma OutsideIff(n: Word, count: nat, dropped: nat, r: nat)
    requires r > 0 ==> count % TWO_32 + r <= n
    ensures Outside(n, count, dropped, r)
            <==> exists i :: n <= i < TWO_32 && Among(i, CursorAt(count, dropped), r)
  {
    var q := CursorAt(count, dropped);
    CursorIs(count, dropped);
    if Outside(n, count, dropped, r) {
      assert Among(if q >= n then q else n, q, r);
    }
  }

  lemma OutsideCell(n: Word, count: nat, dropped: nat, r: nat, i: Word)
    requires r > 0 ==> count % TWO_32 + r <= n
    requires n <= i && Among(i, CursorAt(count, dropped), r)
    ensures Outside(n, count, dropped, r)
  {
    OutsideIff(n, count, dropped, r);
  }

  lemma CursorIs(count: nat, dropped: nat)
    ensures CursorAt(count, dropped) == Sub32(count % TWO_32, dropped % TWO_32)
  {
    var o, lag := count % TWO_32, dropped % TWO_32;
    DivMod(count, TWO_32);
    DivMod(dropped, TWO_32);
    var k := count / TWO_32 - dropped / TWO_32;
    if o < lag {
      DivUnique(count - dropped, TWO_32, k - 1, o - lag + TWO_32);
    } else {
      DivUnique(count - dropped, TWO_32, k, o - lag);
    }
  }

  /** Puts that touch a cell outside the buffer are puts that go outside. */
  lemma {:induction false} TouchGoesOutside(n: Word, puts: seq<Put>, i: Word)
    requires n <= i && PutsTouch(n, puts, i)
    ensures PutsOutside(n, puts)
  {
    hide Outside, Among, CursorAt;
    var init, put := puts[..|puts| - 1], puts[|puts| - 1];
    if PutsTouch(n, init, i) {
      TouchGoesOutside(n, init, i);
    } else {
      OutsideCell(n, Count(init), Dropped(n, init), Reach(n, Count(init) % TWO_32, put), i);
    }
  }

  lemma {:induction false} OutsideTouches(n: Word, puts: seq<Put>) returns (i: Word)
    requires PutsOutside(n, puts)
    ensures n <= i && PutsTouch(n, puts, i)
  {
    hide Outside, Among, CursorAt;
    var init, put := puts[..|puts| - 1], puts[|puts| - 1];
    if PutsOutside(n, init) {
      i := OutsideTouches(n, init);
    } else {
      var count, dropped, r := Count(init), Dropped(n, init), Reach(n, Count(init) % TWO_32, put);
      OutsideIff(n, count, dropped, r);
      i :| n <= i < TWO_32 && Among(i, CursorAt(count, dropped), r);
    }
  }

  lemma TouchedOverruns(n: Word, puts: seq<Put>, i: Word)
    requires n <= i && Touched(n, puts, i)
    ensures LeavesBuffer(n, puts)
  {
    hide PutsOutside, PutsTouch, CursorAt, Outside;
    if PutsTouch(n, puts, i) {
      TouchGoesOutside(n, puts, i);
    } else {
      OutsideCell(n, Count(puts), Dropped(n, puts), 1, i);
    }
  }

  lemma OverrunTouches(n: Word, puts: seq<Put>) returns (i: Word)
    requires LeavesBuffer(n, puts)
    ensures n <= i && Touched(n, puts, i)
  {
    hide PutsOutside, PutsTouch, CursorAt;
    if PutsOutside(n, puts) {
      i := OutsideTouches(n, puts);
    } else {
      var count, dropped := Count(puts), Dropped(n, puts);
      OutsideIff(n, count, dropped, 1);
      i :| n <= i < TWO_32 && Among(i, CursorAt(count, dropped), 1);
    }
  }

  /** No cell outside the buffer changes, whatever memory holds, exactly when there is no overrun. */
  lemma StaysInsideIff(n: Word, puts: seq<Put>)
    ensures (forall before: Memory, i :: n <= i < TWO_32 ==> Final(before, n, puts)[i] == before[i])
            <==> !LeavesBuffer(n, puts)
  {
    hide LeavesBuffer, Touched, Final;
    if LeavesBuffer(n, puts) {
      var i := OverrunTouches(n, puts);
      var before, before': Memory := seq(TWO_32, _ => 'a'), seq(TWO_32, _ => 'b');
      FinalCell(before, before', n, puts, i);
      assert before[i] != before'[i];
    } else {
      forall before: Memory, i | n <= i < TWO_32
        ensures Final(before, n, puts)[i] == before[i]
      {
        if Touched(n, puts, i) {
          TouchedOverruns(n, puts, i);
        }
        FinalCell(before, before, n, puts, i);
      }
    }
  }

  /** While the lag is at least the size of the buffer, and its size short of a whole round, every
      store goes outside. */
  lemma LaggingOutside(n: Word, count: nat, dropped: nat, r: nat)
    requires n <= dropped % TWO_32 <= TWO_32 - n && r > 0
    ensures Outside(n, count, dropped, r) <==> count % TWO_32 < n
  {
  }

  // ----- when there is no overrun

  lemma SmallCount(count: nat)
    requires count < TWO_32
    ensures count % TWO_32 == count
  {
  }

  lemma OutsideShort(n: Word, count: nat, dropped: nat, r: nat)
    requires count < TWO_32
    ensures dropped == 0 || count > n ==> !Outside(n, count, dropped, r)
  {
  }

  /** Fewer than 2^32 characters never leave the buffer. */
  lemma {:induction false} ShortStaysInside(n: Word, puts: seq<Put>)
    requires Count(puts) < TWO_32
    ensures !LeavesBuffer(n, puts) && (Count(puts) <= n ==> Dropped(n, puts) == 0)
  {
    hide Outside;
    OutsideShort(n, Count(puts), Dropped(n, puts), 1);
    if puts != [] {
      var init, put := puts[..|puts| - 1], puts[|puts| - 1];
      ShortStaysInside(n, init);
      OutsideShort(n, Count(init), Dropped(n, init), Reach(n, Count(init) % TWO_32, put));
      SmallCount(Count(init));
    }
    SmallCount(Count(puts));
  }

  predicate SinglesOnly(puts: seq<Put>) {
    forall k :: 0 <= k < |puts| ==> puts[k].One?
  }

  predicate FieldsOnly(puts: seq<Put>) {
    forall k :: 0 <= k < |puts| ==> puts[k].Whole?
  }

  /** Integer fields alone never leave the buffer either: the cursor wraps with the count. */
  lemma {:induction false} FieldsStayInside(n: Word, puts: seq<Put>)
    requires FieldsOnly(puts)
    ensures !LeavesBuffer(n, puts) && Dropped(n, puts) == 0
  {
    if puts != [] {
      FieldsStayInside(n, puts[..|puts| - 1]);
    }
  }

  lemma {:induction false} SinglesDropped(n: Word, puts: seq<Put>)
    requires SinglesOnly(puts)
    ensures Count(puts) == |puts| && (|puts| <= TWO_32 ==> Dropped(n, puts) == Max(0, |puts| - n))
  {
    if puts != [] {
      SinglesDropped(n, puts[..|puts| - 1]);
    }
  }

  /** Single characters leave the buffer exactly when there are 2^32 of them, unless it has no cells. */
  lemma {:induction false} SinglesOverrunIff(n: Word, puts: seq<Put>)
    requires SinglesOnly(puts)
    ensures LeavesBuffer(n, puts) <==> n > 0 && |puts| >= TWO_32
    ensures |puts| > TWO_32 && n > 0 ==> PutsOutside(n, puts)
  {
    SinglesDropped(n, puts);
    if |puts| < TWO_32 {
      ShortStaysInside(n, puts);
    } else if n == 0 {
      NoCells(puts);
    } else if |puts| > TWO_32 {
      var init := puts[..|puts| - 1];
      SinglesDropped(n, init);
      SinglesOverrunIff(n, init);
    }
  }

  lemma {:induction false} NoCells(puts: seq<Put>)
    ensures !LeavesBuffer(0, puts)
  {
    if puts != [] {
      NoCells(puts[..|puts| - 1]);
    }
  }
}
