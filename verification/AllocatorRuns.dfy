/** Runs of malloc and free that start from one free region. */
module AllocatorRuns {
  import opened Machine
  import opened MemoryMaps
  import opened Allocators

  datatype Op = Malloc(size: Word64) | Free(pointer: Word)

  /** The headers and the current block, together with what callers know: the live payloads with
      the sizes the allocator keeps and the sizes asked for, and, as history, the addresses blocks
      were made at, in order. */
  datatype World = World(headers: Headers, current: Word,
                         live: map<Word, Word>, asked: map<Word, Word64>, points: seq<Word>)

  datatype Option<T> = None | Some(value: T)

  function Begin(start: Word, size: Word64): World {
    World(map[start := Header(NULL, NULL, false, size)], start, map[], map[], [start])
  }

  function PointerTo(a: Word): Word {
    Wrap32(a + HEADER)
  }

  /** malloc while the current block can be split, free of a live pointer; nothing else. */
  function Step(w: World, op: Op): Option<World> {
    match op
    case Malloc(size) =>
      if w.current in w.headers && SplitCode(w.headers, w.current, Wrap32(size)) == 0 then
        var b := SplitPoint(w.current, Wrap32(size));
        Some(World(AfterSplit(w.headers, w.current, Wrap32(size)), b,
                   w.live[PointerTo(w.current) := Wrap32(size)], w.asked[PointerTo(w.current) := size],
                   w.points + [b]))
      else None
    case Free(pointer) =>
      var a := Wrap32(pointer - HEADER);
      if pointer in w.live && a in w.headers && w.headers[a].next in w.headers then
        Some(World(AfterFree(w.headers, a), w.current, w.live - {pointer}, w.asked - {pointer}, w.points))
      else None
  }

  function Run(w: World, ops: seq<Op>): Option<World> {
    if ops == [] then Some(w)
    else
      var before := Run(w, ops[..|ops| - 1]);
      if before.None? then None else Step(before.value, ops[|ops| - 1])
  }

  // ----- the invariant

  /** Block k of the history, if it is live, is as malloc made it. */
  predicate Intact(w: World, k: nat)
    requires k + 1 < |w.points|
  {
    var a, b := w.points[k], w.points[k + 1];
    && a in w.headers && w.headers[a].reserved
    && w.headers[a].next == b && w.headers[a].size == b - a - HEADER
  }

  ghost predicate LiveAt(w: World, p: Word, k: nat) {
    p in w.live && k + 1 < |w.points| && p == w.points[k] + HEADER && w.live[p] == w.points[k + 1] - p && Intact(w, k)
  }

  /** The blocks lie one behind the other from start to the current block, which is free, last in
      its list, and reaches exactly to the end. */
  ghost predicate Chain(w: World, start: nat, end: nat) {
    && end < TWO_32 && w.points != [] && w.points[0] == start && w.points[|w.points| - 1] == w.current
    && (forall k :: 0 <= k < |w.points| ==> w.points[k] in w.headers && start <= w.points[k])
    && (forall j, k :: 0 <= j < k < |w.points| ==> w.points[j] + HEADER <= w.points[k])
    && w.current + HEADER + w.headers[w.current].size == end
    && !w.headers[w.current].reserved && w.headers[w.current].next == NULL
  }

  /** Every live payload is one of the earlier blocks. */
  ghost predicate LiveBlocks(w: World) {
    forall p :: p in w.live ==> exists k :: 0 <= k && LiveAt(w, p, k)
  }

  ghost predicate Safe(w: World, start: nat, end: nat) {
    Chain(w, start, end) && LiveBlocks(w)
  }

  lemma BeginSafe(start: Word, size: Word64)
    requires start + HEADER + size < TWO_32
    ensures Safe(Begin(start, size), start, start + HEADER + size)
  {
  }

  lemma SmallWord(i: int)
    requires 0 <= i < TWO_32
    ensures Wrap32(i) == i && Wrap64(i) == i
  {
  }

  /** Splitting the current block, where nothing wraps. */
  lemma SplitCurrent(h: Headers, a: Word, n: Word, end: nat)
    requires a in h && a + HEADER + h[a].size == end < TWO_32 && SplitCode(h, a, n) == 0
    ensures var b := SplitPoint(a, n); var h' := AfterSplit(h, a, n);
            && b == a + HEADER + n && b in h' && a in h'
            && h'[a] == h[a].(next := b, reserved := true, size := n)
            && h'[b] == Header(a, h[a].next, false, h[a].size - n - HEADER)
            && forall x :: x != a && x != b ==> (x in h' <==> x in h) && (x in h ==> h'[x] == h[x])
  {
    SmallWord(a + HEADER + n);
    SmallWord(h[a].size - n - HEADER);
  }

  /** A free changes one header only, and leaves it free. */
  lemma FreeEffect(h: Headers, a: Word)
    requires a in h && h[a].next in h
    ensures var h' := AfterFree(h, a);
            && h'.Keys == h.Keys && !h'[a].reserved
            && forall x :: x in h && x != a ==> h'[x] == h[x]
  {
    hide Wrap32, Wrap64;
  }

  lemma LiveStays(w: World, w': World, p: Word, k: nat, b: Word)
    requires LiveAt(w, p, k) && p in w'.live && w'.live[p] == w.live[p]
    requires w'.points == w.points || w'.points == w.points + [b]
    requires w.points[k] in w'.headers && w'.headers[w.points[k]] == w.headers[w.points[k]]
    ensures LiveAt(w', p, k)
  {
  }

  lemma MallocChain(w: World, size: Word64, start: nat, end: nat)
    requires Chain(w, start, end) && Step(w, Malloc(size)).Some?
    ensures Chain(Step(w, Malloc(size)).value, start, end)
  {
    hide AfterSplit, SplitPoint, Wrap32, SplitCode;
    SplitCurrent(w.headers, w.current, Wrap32(size), end);
  }

  lemma MallocLive(w: World, size: Word64, start: nat, end: nat)
    requires Safe(w, start, end) && Step(w, Malloc(size)).Some?
    ensures LiveBlocks(Step(w, Malloc(size)).value)
  {
    hide AfterSplit, SplitPoint, Wrap32, SplitCode;
    var w' := Step(w, Malloc(size)).value;
    var n := Wrap32(size);
    SplitCurrent(w.headers, w.current, n, end);
    var b := SplitPoint(w.current, n);
    SmallWord(w.current + HEADER);
    forall p | p in w'.live
      ensures exists k :: 0 <= k && LiveAt(w', p, k)
    {
      if p == PointerTo(w.current) {
        assert LiveAt(w', p, |w.points| - 1);
      } else {
        var k :| 0 <= k && LiveAt(w, p, k);
        LiveStays(w, w', p, k, b);
      }
    }
  }

  lemma FreeSafe(w: World, p: Word, start: nat, end: nat)
    requires Safe(w, start, end) && Step(w, Free(p)).Some?
    ensures Safe(Step(w, Free(p)).value, start, end)
  {
    hide AfterFree, Wrap32, LiveAt, Intact, LiveBlocks;
    var m :| 0 <= m && LiveAt(w, p, m) by {
      FirstBlock(w, p);
    }
    FreedAt(w, p, m);
    FreeEffect(w.headers, w.points[m]);
    FreeLive(w, Step(w, Free(p)).value, p, m);
  }

  lemma FirstBlock(w: World, p: Word)
    requires LiveBlocks(w) && p in w.live
    ensures exists k :: 0 <= k && LiveAt(w, p, k)
  {
  }

  lemma FreedAt(w: World, p: Word, m: nat)
    requires LiveAt(w, p, m)
    ensures m + 1 < |w.points| && Wrap32(p - HEADER) == w.points[m]
    ensures w.points[m] in w.headers && w.headers[w.points[m]].reserved
  {
    SmallWord(p - HEADER);
  }

  lemma FreeLive(w: World, w': World, p: Word, m: nat)
    requires LiveBlocks(w) && LiveAt(w, p, m)
    requires w'.live == w.live - {p} && w'.points == w.points && w'.headers.Keys == w.headers.Keys
    requires forall x :: x in w.headers && x != w.points[m] ==> w'.headers[x] == w.headers[x]
    ensures LiveBlocks(w')
  {
    hide Intact;
    forall q | q in w'.live
      ensures exists k :: 0 <= k && LiveAt(w', q, k)
    {
      var k :| 0 <= k && LiveAt(w, q, k);
      OtherBlock(w, p, q, m, k);
      LiveStays(w, w', q, k, NULL);
    }
  }

  lemma OtherBlock(w: World, p: Word, q: Word, j: nat, k: nat)
    requires p != q && LiveAt(w, p, j) && LiveAt(w, q, k)
    ensures w.points[j] != w.points[k] && w.points[k] in w.headers
  {
  }

  /** Every run from one free region stays safe. */
  lemma {:induction false} RunSafe(start: Word, size: Word64, ops: seq<Op>)
    requires start + HEADER + size < TWO_32 && Run(Begin(start, size), ops).Some?
    ensures Safe(Run(Begin(start, size), ops).value, start, start + HEADER + size)
  {
    if ops == [] {
      BeginSafe(start, size);
    } else {
      var init, op := ops[..|ops| - 1], ops[|ops| - 1];
      RunSafe(start, size, init);
      var w := Run(Begin(start, size), init).value;
      match op
      case Malloc(n) =>
        MallocChain(w, n, start, start + HEADER + size);
        MallocLive(w, n, start, start + HEADER + size);
      case Free(p) => FreeSafe(w, p, start, start + HEADER + size);
    }
  }

  // ----- what safety means for the caller

  predicate Overlap(a: int, n: int, b: int, m: int) {
    a < b + m && b < a + n
  }

  lemma SafePayloads(w: World, start: nat, end: nat, p: Word, q: Word)
    requires Safe(w, start, end) && p in w.live && q in w.live
    ensures p != q ==> !Overlap(p, w.live[p], q, w.live[q])
    ensures start + HEADER <= p && p + w.live[p] <= w.current
  {
    var j :| 0 <= j && LiveAt(w, p, j);
    var k :| 0 <= k && LiveAt(w, q, k);
    var last := |w.points| - 1;
    assert j + 1 == last || w.points[j + 1] + HEADER <= w.points[last];
    if j < k {
      assert j + 1 == k || w.points[j + 1] + HEADER <= w.points[k];
    } else if k < j {
      assert k + 1 == j || w.points[k + 1] + HEADER <= w.points[j];
    }
  }

  lemma OffHeaders(w: World, start: nat, end: nat, p: Word, k: nat)
    requires Safe(w, start, end) && p in w.live && k < |w.points|
    ensures !Overlap(p, w.live[p], w.points[k], HEADER)
  {
    var j :| 0 <= j && LiveAt(w, p, j);
    if j + 1 < k {
      assert w.points[j + 1] + HEADER <= w.points[k];
    }
  }

  /** In every run: live payloads do not overlap each other, nor any header ever made, and lie
      behind the first header and before the current block, which reaches exactly to the end of
      the region. */
  lemma LivePayloads(start: Word, size: Word64, ops: seq<Op>, p: Word, q: Word)
    requires start + HEADER + size < TWO_32 && Run(Begin(start, size), ops).Some?
    requires var w := Run(Begin(start, size), ops).value; p in w.live && q in w.live
    ensures var w := Run(Begin(start, size), ops).value;
            && (p != q ==> !Overlap(p, w.live[p], q, w.live[q]))
            && (forall k :: 0 <= k < |w.points| ==> !Overlap(p, w.live[p], w.points[k], HEADER))
            && (exists k :: 0 <= k < |w.points| && w.points[k] == q - HEADER)
            && start + HEADER <= p && p + w.live[p] <= w.current
            && w.current in w.headers && w.current + HEADER + w.headers[w.current].size == start + HEADER + size
  {
    hide Run, Begin, Overlap, LiveBlocks;
    RunSafe(start, size, ops);
    var w := Run(Begin(start, size), ops).value;
    SafePayloads(w, start, start + HEADER + size, p, q);
    forall k | 0 <= k < |w.points|
      ensures !Overlap(p, w.live[p], w.points[k], HEADER)
    {
      OffHeaders(w, start, start + HEADER + size, p, k);
    }
    HeaderIsPoint(w, q);
  }

  lemma HeaderIsPoint(w: World, q: Word)
    requires LiveBlocks(w) && q in w.live
    ensures exists k :: 0 <= k < |w.points| && w.points[k] == q - HEADER
  {
    var m :| 0 <= m && LiveAt(w, q, m);
    assert w.points[m] == q - HEADER;
  }

  // ----- what was asked for

  /** The allocator keeps the lowest 32 bits of every size. */
  ghost predicate KeepsLow(w: World) {
    w.asked.Keys == w.live.Keys && forall p :: p in w.live ==> w.live[p] == Wrap32(w.asked[p])
  }

  lemma {:induction false} RunKeepsLow(start: Word, size: Word64, ops: seq<Op>)
    requires Run(Begin(start, size), ops).Some?
    ensures KeepsLow(Run(Begin(start, size), ops).value)
  {
    hide Wrap32, AfterSplit, AfterFree;
    if ops != [] {
      RunKeepsLow(start, size, ops[..|ops| - 1]);
    }
  }

  lemma LowIff(n: Word64)
    ensures Wrap32(n) == n <==> n < TWO_32
  {
  }

  /** A live payload has the size asked for, and lies in the region with that size, exactly when
      the size fits in 32 bits. Then it is apart from all headers and from all other such payloads. */
  lemma AskedPayloads(start: Word, size: Word64, ops: seq<Op>, p: Word, q: Word)
    requires start + HEADER + size < TWO_32 && Run(Begin(start, size), ops).Some?
    requires var w := Run(Begin(start, size), ops).value; p in w.live && q in w.live
    ensures var w := Run(Begin(start, size), ops).value;
            && p in w.asked && q in w.asked
            && (w.live[p] == w.asked[p] <==> w.asked[p] < TWO_32)
            && (p + w.asked[p] <= w.current <==> w.asked[p] < TWO_32)
            && (w.asked[p] < TWO_32 ==>
                  forall k :: 0 <= k < |w.points| ==> !Overlap(p, w.asked[p], w.points[k], HEADER))
            && (w.asked[p] < TWO_32 && w.asked[q] < TWO_32 && p != q ==> !Overlap(p, w.asked[p], q, w.asked[q]))
  {
    hide Run, Begin, Overlap, Wrap32;
    RunKeepsLow(start, size, ops);
    LivePayloads(start, size, ops, p, q);
    var w := Run(Begin(start, size), ops).value;
    LowIff(w.asked[p]);
    LowIff(w.asked[q]);
  }

  /** A request of 2^32 + 8 bytes is granted from a region of 100 bytes, with 8 of them. */
  lemma LargeRequest(start: Word)
    requires start + HEADER + 100 < TWO_32
    ensures var w, p := Run(Begin(start, 100), [Malloc(TWO_32 + 8)]), PointerTo(start);
            && w.Some? && p in w.value.live && p in w.value.asked
            && w.value.live[p] == 8 && w.value.asked[p] == TWO_32 + 8
  {
    assert [Malloc(TWO_32 + 8)][..0] == [];
    assert Wrap32(TWO_32 + 8) == 8;
  }

  /** After any run every live pointer can be freed: its header and the next one exist. */
  lemma FreeDefined(start: Word, size: Word64, ops: seq<Op>, p: Word)
    requires start + HEADER + size < TWO_32 && Run(Begin(start, size), ops).Some?
    requires p in Run(Begin(start, size), ops).value.live
    ensures Step(Run(Begin(start, size), ops).value, Free(p)).Some?
  {
    hide Run, Begin, Wrap32;
    RunSafe(start, size, ops);
    var w := Run(Begin(start, size), ops).value;
    var m :| 0 <= m && LiveAt(w, p, m);
    SmallWord(p - HEADER);
  }

  // ----- what a run uses up

  /** The bytes asked for, with a header for each request. */
  function Demand(ops: seq<Op>): nat {
    if ops == [] then 0
    else
      var op := ops[|ops| - 1];
      Demand(ops[..|ops| - 1]) + if op.Malloc? then HEADER + Wrap32(op.size) else 0
  }

  /** Every malloc takes its size, cut to 32 bits, and twenty bytes; a free gives nothing back. */
  lemma DemandGrows(ops: seq<Op>, n: Word64, p: Word)
    ensures Demand([]) == 0 && Demand(ops + [Malloc(n)]) == Demand(ops) + n % TWO_32 + 20
    ensures Demand(ops + [Free(p)]) == Demand(ops)
  {
    assert (ops + [Malloc(n)])[..|ops|] == ops && (ops + [Free(p)])[..|ops|] == ops;
  }

  /** Memory is never used again: the current block starts behind everything ever asked for,
      whatever has been freed. */
  lemma {:induction false} RunConsumes(start: Word, size: Word64, ops: seq<Op>)
    requires start + HEADER + size < TWO_32 && Run(Begin(start, size), ops).Some?
    ensures Run(Begin(start, size), ops).value.current == start + Demand(ops)
  {
    if ops != [] {
      var init, op := ops[..|ops| - 1], ops[|ops| - 1];
      RunConsumes(start, size, init);
      RunSafe(start, size, init);
      var w := Run(Begin(start, size), init).value;
      if op.Malloc? {
        SplitCurrent(w.headers, w.current, Wrap32(op.size), start + HEADER + size);
      }
    }
  }

  /** After any run, malloc splits the current block exactly when the request and one more header
      still fit behind everything ever asked for. Otherwise there is no next block to search. */
  lemma NextMalloc(start: Word, size: Word64, ops: seq<Op>, n: Word64)
    requires start + HEADER + size < TWO_32 && Run(Begin(start, size), ops).Some?
    ensures var w := Run(Begin(start, size), ops).value;
            && (Step(w, Malloc(n)).Some? <==> Demand(ops) + n % TWO_32 + 20 <= size)
            && w.current in w.headers && w.headers[w.current].next == NULL
  {
    hide Run, Begin;
    RunSafe(start, size, ops);
    RunConsumes(start, size, ops);
  }

  // ----- the allocator executes runs

  lemma {:induction false} RunPrefix(w: World, ops: seq<Op>, i: nat)
    requires i < |ops| && Run(w, ops).Some?
    ensures Run(w, ops[..i]).Some? && Run(w, ops[..i + 1]) == Step(Run(w, ops[..i]).value, ops[i])
    ensures Run(w, ops[..i + 1]).Some?
    decreases |ops|
  {
    assert ops[..i + 1][..i] == ops[..i];
    if i + 1 == |ops| {
      assert ops[..i + 1] == ops;
    } else {
      var init := ops[..|ops| - 1];
      assert init[..i] == ops[..i] && init[..i + 1] == ops[..i + 1];
      RunPrefix(w, init, i);
    }
  }

  lemma MallocAddresses(a: Word, n: Word64)
    ensures Wrap32(n) == n % TWO_32 && SplitPoint(a, Wrap32(n)) == (a + 20 + n % TWO_32) % TWO_32
    ensures PointerTo(a) == (a + 20) % TWO_32
  {
  }

  /** One operation of a run; a malloc returns its pointer. */
  method ExecuteOne(allocator: Allocator, op: Op, ghost w: World, ghost start: nat, ghost end: nat)
    returns (pointer: Word)
    requires Safe(w, start, end) && Step(w, op).Some?
    requires allocator.headers == w.headers && allocator.current == w.current
    modifies allocator
    ensures allocator.headers == Step(w, op).value.headers && allocator.current == Step(w, op).value.current
    ensures forall p :: p in Step(w, op).value.live ==> p in w.live || p == pointer
  {
    hide AfterSplit, AfterFree, Wrap32, SplitPoint, SplitCode, LiveBlocks;
    pointer := NULL;
    match op {
      case Malloc(n) =>
        SplitCurrent(w.headers, w.current, Wrap32(n), end);
        MallocAddresses(w.current, n);
        pointer := allocator.Malloc(n);
      case Free(p) =>
        FreeFits(w, p, start, end);
        allocator.Free(p);
    }
  }

  /** The allocator object carries out every run, and hands out the pointers of the run. */
  method Execute(start: Word, size: Word64, ops: seq<Op>) returns (allocator: Allocator, pointers: seq<Word>)
    requires start + HEADER + size < TWO_32 && Run(Begin(start, size), ops).Some?
    ensures fresh(allocator)
    ensures var w := Run(Begin(start, size), ops).value;
            && allocator.headers == w.headers && allocator.current == w.current
            && forall p :: p in w.live ==> p in pointers
  {
    hide Step, Safe;
    allocator := new Allocator(start, size);
    pointers := [];
    ghost var w := Begin(start, size);
    var i := 0;
    assert ops[..0] == [];
    while i < |ops|
      invariant 0 <= i <= |ops| && fresh(allocator)
      invariant Run(Begin(start, size), ops[..i]) == Some(w)
      invariant allocator.headers == w.headers && allocator.current == w.current
      invariant forall p :: p in w.live ==> p in pointers
    {
      RunPrefix(Begin(start, size), ops, i);
      RunSafe(start, size, ops[..i]);
      var pointer := ExecuteOne(allocator, ops[i], w, start, start + HEADER + size);
      pointers := pointers + [pointer];
      w := Step(w, ops[i]).value;
      i := i + 1;
    }
    assert ops[..|ops|] == ops;
  }

  lemma FreeFits(w: World, p: Word, start: nat, end: nat)
    requires Safe(w, start, end) && Step(w, Free(p)).Some?
    ensures var a := Wrap32(p - HEADER); a in w.headers && w.headers[a].next in w.headers && w.headers[a].next != a
  {
    var m :| 0 <= m && LiveAt(w, p, m);
    SmallWord(p - HEADER);
  }
}
