/** The block list as a tiling of the region, and how split, merge, malloc and free treat it. */
module AllocatorLists {
  import opened Machine
  import opened MemoryMaps
  import opened Allocators
  import opened AllocatorRuns

  /** The listed blocks, each the next of the one before it, fill the region from start to end. */
  ghost predicate Tiles(h: Headers, list: seq<Word>, start: nat, end: nat) {
    && end < TWO_32 && list != [] && list[0] == start
    && (forall k :: 0 <= k < |list| ==> list[k] in h)
    && (forall k :: 0 <= k < |list| - 1 ==>
          h[list[k]].next == list[k + 1] && list[k + 1] == list[k] + HEADER + h[list[k]].size)
    && list[|list| - 1] + HEADER + h[list[|list| - 1]].size == end
  }

  lemma {:induction false} TilesIncrease(h: Headers, list: seq<Word>, start: nat, end: nat, j: nat, k: nat)
    requires Tiles(h, list, start, end) && j < k < |list|
    ensures list[j] + HEADER + h[list[j]].size <= list[k] && list[k] + HEADER <= end
    decreases k
  {
    if j + 1 < k {
      TilesIncrease(h, list, start, end, j, k - 1);
    }
    TileInside(h, list, start, end, k);
  }

  lemma {:induction false} TileInside(h: Headers, list: seq<Word>, start: nat, end: nat, k: nat)
    requires Tiles(h, list, start, end) && k < |list|
    ensures start <= list[k] && list[k] + HEADER + h[list[k]].size <= end
    decreases |list| - k
  {
    TileFromStart(h, list, start, end, k);
    if k + 1 < |list| {
      TileInside(h, list, start, end, k + 1);
    }
  }

  lemma {:induction false} TileFromStart(h: Headers, list: seq<Word>, start: nat, end: nat, k: nat)
    requires Tiles(h, list, start, end) && k < |list|
    ensures start <= list[k]
  {
    if k > 0 {
      TileFromStart(h, list, start, end, k - 1);
    }
  }

  /** Splitting a listed block puts the new block behind it, and the region stays tiled. */
  lemma SplitTiles(h: Headers, list: seq<Word>, start: nat, end: nat, k: nat, size: Word)
    requires Tiles(h, list, start, end) && k < |list| && SplitCode(h, list[k], size) == 0
    ensures Tiles(AfterSplit(h, list[k], size), list[..k + 1] + [SplitPoint(list[k], size)] + list[k + 1..], start, end)
  {
    hide AfterSplit, SplitPoint;
    var a, b, h' := list[k], SplitPoint(list[k], size), AfterSplit(h, list[k], size);
    TileInside(h, list, start, end, k);
    SplitCurrent(h, a, size, a + HEADER + h[a].size);
    var list' := list[..k + 1] + [b] + list[k + 1..];
    forall m | 0 <= m < |list| && m != k
      ensures list[m] != a && list[m] != b && list[m] in h' && h'[list[m]] == h[list[m]]
    {
      if m < k {
        TilesIncrease(h, list, start, end, m, k);
      } else {
        TilesIncrease(h, list, start, end, k, m);
      }
    }
    SplitListed(h, h', list, list', start, end, k, b);
  }

  lemma SplitListed(h: Headers, h': Headers, list: seq<Word>, list': seq<Word>, start: nat, end: nat, k: nat, b: Word)
    requires Tiles(h, list, start, end) && k < |list| && list' == list[..k + 1] + [b] + list[k + 1..]
    requires forall m :: 0 <= m < |list| && m != k ==> list[m] in h' && h'[list[m]] == h[list[m]]
    requires list[k] in h' && b in h'
    requires h'[list[k]].next == b && b == list[k] + HEADER + h'[list[k]].size
    requires h'[b].next == h[list[k]].next && b + HEADER + h'[b].size == list[k] + HEADER + h[list[k]].size
    ensures Tiles(h', list', start, end)
  {
    forall m | 0 <= m < |list'|
      ensures list'[m] in h'
      ensures m < |list'| - 1 ==>
                h'[list'[m]].next == list'[m + 1] && list'[m + 1] == list'[m] + HEADER + h'[list'[m]].size
    {
      SplitLink(h, h', list, list', start, end, k, b, m);
    }
  }

  /** One block of the longer list leads to the next. */
  lemma SplitLink(h: Headers, h': Headers, list: seq<Word>, list': seq<Word>, start: nat, end: nat,
                  k: nat, b: Word, m: nat)
    requires Tiles(h, list, start, end) && k < |list| && list' == list[..k + 1] + [b] + list[k + 1..] && m < |list'|
    requires forall m :: 0 <= m < |list| && m != k ==> list[m] in h' && h'[list[m]] == h[list[m]]
    requires list[k] in h' && b in h'
    requires h'[list[k]].next == b && b == list[k] + HEADER + h'[list[k]].size
    requires h'[b].next == h[list[k]].next && b + HEADER + h'[b].size == list[k] + HEADER + h[list[k]].size
    ensures list'[m] in h'
    ensures m < |list'| - 1 ==>
              h'[list'[m]].next == list'[m + 1] && list'[m + 1] == list'[m] + HEADER + h'[list'[m]].size
  {
    var n := if m <= k then m else m - 1;
    assert m != k + 1 ==> list'[m] == list[n];
  }

  /** Two free neighbours can be merged, and the region stays tiled by one block less. */
  lemma MergeTiles(h: Headers, list: seq<Word>, start: nat, end: nat, k: nat)
    requires Tiles(h, list, start, end) && k + 1 < |list|
    requires !h[list[k]].reserved && !h[list[k + 1]].reserved
    ensures MergeCode(h, list[k], list[k + 1]) == 0
    ensures Tiles(AfterMerge(h, list[k], list[k + 1]), list[..k + 1] + list[k + 2..], start, end)
  {
    var a, b := list[k], list[k + 1];
    TileInside(h, list, start, end, k + 1);
    SmallWord(a + h[a].size + HEADER);
    SmallWord(h[a].size + h[b].size + HEADER);
    var h' := AfterMerge(h, a, b);
    var list' := list[..k + 1] + list[k + 2..];
    forall m | 0 <= m < |list| && m != k
      ensures list[m] != a
    {
      if m < k {
        TilesIncrease(h, list, start, end, m, k);
      } else {
        TilesIncrease(h, list, start, end, k, m);
      }
    }
    MergeListed(h, h', list, list', start, end, k);
  }

  lemma MergeListed(h: Headers, h': Headers, list: seq<Word>, list': seq<Word>, start: nat, end: nat, k: nat)
    requires Tiles(h, list, start, end) && k + 1 < |list| && list' == list[..k + 1] + list[k + 2..]
    requires forall m :: 0 <= m < |list| && m != k ==> list[m] in h' && h'[list[m]] == h[list[m]]
    requires list[k] in h' && h'[list[k]].next == h[list[k + 1]].next
    requires h'[list[k]].size == h[list[k]].size + h[list[k + 1]].size + HEADER
    ensures Tiles(h', list', start, end)
  {
    forall m | 0 <= m < |list'|
      ensures list'[m] in h'
      ensures m < |list'| - 1 ==>
                h'[list'[m]].next == list'[m + 1] && list'[m + 1] == list'[m] + HEADER + h'[list'[m]].size
    {
      MergeLink(h, h', list, list', start, end, k, m);
    }
  }

  /** One block of the shorter list leads to the next. */
  lemma MergeLink(h: Headers, h': Headers, list: seq<Word>, list': seq<Word>, start: nat, end: nat, k: nat, m: nat)
    requires Tiles(h, list, start, end) && k + 1 < |list| && list' == list[..k + 1] + list[k + 2..] && m < |list'|
    requires forall m :: 0 <= m < |list| && m != k ==> list[m] in h' && h'[list[m]] == h[list[m]]
    requires list[k] in h' && h'[list[k]].next == h[list[k + 1]].next
    requires h'[list[k]].size == h[list[k]].size + h[list[k + 1]].size + HEADER
    ensures list'[m] in h'
    ensures m < |list'| - 1 ==>
              h'[list'[m]].next == list'[m + 1] && list'[m + 1] == list'[m] + HEADER + h'[list'[m]].size
  {
    var n := if m <= k then m else m + 1;
    assert list'[m] == list[n];
  }

  /** Freeing a block right after it was split off undoes the split, and leaves every header but the
      dead one as it was, exactly when the remainder's size fits in 32 bits. */
  lemma SplitFreeInverse(h: Headers, a: Word, size: Word)
    requires a in h && !h[a].reserved && SplitCode(h, a, size) == 0 && SplitPoint(a, size) != a
    ensures var h' := AfterSplit(h, a, size); var b := SplitPoint(a, size);
            && a in h' && h'[a].next in h'
            && var h'' := AfterFree(h', a);
               && a in h'' && (h''[a] == h[a] <==> h[a].size - size - HEADER < TWO_32)
               && forall x :: x in h && x != a && x != b ==> x in h'' && h''[x] == h[x]
  {
    var b, rest := SplitPoint(a, size), h[a].size - size - HEADER;
    assert Wrap32(a + size + HEADER) == b;
    if rest < TWO_32 {
      SmallWord(rest);
    }
    Wrap64Small(size + Wrap32(rest) + HEADER);
  }

  lemma Wrap64Small(n: nat)
    requires n < TWO_64
    ensures Wrap64(n) == n
  {
  }

  // ----- the list over runs

  ghost predicate ListsLive(w: World, list: seq<Word>) {
    forall p :: p in w.live ==> exists m :: 0 <= m < |list| && list[m] + HEADER == p
  }

  ghost predicate ListedBy(w: World, list: seq<Word>, start: nat, end: nat) {
    Tiles(w.headers, list, start, end) && list[|list| - 1] == w.current && ListsLive(w, list)
  }

  /** The list of blocks from start tiles the region, leads to the current block, and passes every
      live block. */
  ghost predicate Listed(w: World, start: nat, end: nat) {
    exists list :: ListedBy(w, list, start, end)
  }

  lemma BeginListed(start: Word, size: Word64)
    requires start + HEADER + size < TWO_32
    ensures Listed(Begin(start, size), start, start + HEADER + size)
  {
    assert ListedBy(Begin(start, size), [start], start, start + HEADER + size);
  }

  lemma MallocListed(w: World, size: Word64, start: nat, end: nat)
    requires Safe(w, start, end) && Listed(w, start, end) && Step(w, Malloc(size)).Some?
    ensures Listed(Step(w, Malloc(size)).value, start, end)
  {
    hide AfterSplit, SplitPoint, Wrap32, Tiles, SplitCode;
    var n := Wrap32(size);
    var list :| ListedBy(w, list, start, end);
    var k, b, w' := |list| - 1, SplitPoint(w.current, n), Step(w, Malloc(size)).value;
    assert list != [] by {
      NonEmpty(w.headers, list, start, end);
    }
    SplitTiles(w.headers, list, start, end, k, n);
    var list' := list[..k + 1] + [b] + list[k + 1..];
    assert list' == list + [b];
    SmallWord(w.current + HEADER);
    forall p | p in w'.live
      ensures exists m :: 0 <= m < |list'| && list'[m] + HEADER == p
    {
      if p == PointerTo(w.current) {
        assert list'[k] + HEADER == p;
      } else {
        var m :| 0 <= m < |list| && list[m] + HEADER == p;
        assert list'[m] + HEADER == p;
      }
    }
    assert ListedBy(w', list', start, end);
  }

  lemma NonEmpty(h: Headers, list: seq<Word>, start: nat, end: nat)
    requires Tiles(h, list, start, end)
    ensures list != []
  {
  }

  /** What a free of a live pointer does to the headers. */
  lemma FreeStep(w: World, p: Word, start: nat, end: nat) returns (a: Word)
    requires Safe(w, start, end) && Step(w, Free(p)).Some?
    ensures a == p - HEADER && p in w.live && a in w.headers && a != w.current && w.headers[a].next == p + w.live[p]
    ensures w.headers[a].size == w.live[p] && w.headers[a].next in w.headers
    ensures Step(w, Free(p)).value
            == World(AfterMerge(Released(w.headers, a), a, w.headers[a].next), w.current,
                     w.live - {p}, w.asked - {p}, w.points)
  {
    hide Wrap32, Released, AfterMerge;
    var j :| 0 <= j && LiveAt(w, p, j);
    SmallWord(p - HEADER);
    a := Wrap32(p - HEADER);
  }

  /** The place of a freed block in the list. */
  lemma ListedBlock(w: World, p: Word, a: Word, list: seq<Word>, start: nat, end: nat) returns (m: nat)
    requires ListedBy(w, list, start, end) && p in w.live && a + HEADER == p && a in w.headers
    requires w.headers[a].size == w.live[p] && p + w.live[p] != w.current && a != w.current
    ensures m + 1 < |list| - 1 && list[m] == a && list[m + 1] == w.headers[a].next
    ensures a != list[m + 1] && list[m + 1] in w.headers
  {
    m :| 0 <= m < |list| && list[m] + HEADER == p;
    TileInside(w.headers, list, start, end, m);
  }

  /** A freed block that is not directly in front of the current one leaves the list intact. */
  lemma FreeListed(w: World, p: Word, start: nat, end: nat)
    requires Safe(w, start, end) && Listed(w, start, end) && Step(w, Free(p)).Some?
    requires p + w.live[p] != w.current
    ensures Listed(Step(w, Free(p)).value, start, end)
  {
    hide Step;
    var a := FreeStep(w, p, start, end);
    var list :| ListedBy(w, list, start, end);
    var w' := Step(w, Free(p)).value;
    var m := ListedBlock(w, p, a, list, start, end);
    hide Safe, Tiles;
    var h, b := Released(w.headers, a), list[m + 1];
    ReleaseTiles(w.headers, list, start, end, m);
    assert h[b] == w.headers[b] && b in w.headers;
    if h[b].reserved {
      assert AfterMerge(h, a, b) == h;
      assert ListedBy(w', list, start, end);
    } else {
      MergeTiles(h, list, start, end, m);
      hide AfterMerge, Released;
      var list' := list[..m + 1] + list[m + 2..];
      assert LiveBlocks(w) by {
        SafeLive(w, start, end);
      }
      ListWithout(w, w', p, list, list', m);
      assert list'[|list'| - 1] == list[|list| - 1];
      assert ListedBy(w', list', start, end);
    }
  }

  lemma SafeLive(w: World, start: nat, end: nat)
    requires Safe(w, start, end)
    ensures LiveBlocks(w)
  {
  }

  lemma ReleaseTiles(h: Headers, list: seq<Word>, start: nat, end: nat, m: nat)
    requires Tiles(h, list, start, end) && m < |list|
    ensures Tiles(Released(h, list[m]), list, start, end)
  {
  }

  /** A merged block was free, so it is not one of the live ones. */
  lemma ListWithout(w: World, w': World, p: Word, list: seq<Word>, list': seq<Word>, m: nat)
    requires LiveBlocks(w) && ListsLive(w, list) && w'.live == w.live - {p}
    requires m + 1 < |list| && list' == list[..m + 1] + list[m + 2..]
    requires list[m + 1] in w.headers && !w.headers[list[m + 1]].reserved
    ensures ListsLive(w', list')
  {
    forall q | q in w'.live
      ensures exists k :: 0 <= k < |list'| && list'[k] + HEADER == q
    {
      var k :| 0 <= k < |list| && list[k] + HEADER == q;
      var j :| 0 <= j && LiveAt(w, q, j);
      assert k != m + 1;
      assert list'[if k <= m then k else k - 1] + HEADER == q;
    }
  }

  /** A list from start that tiles the region without the current block, and ends before it. */
  ghost predicate DetachedBy(w: World, list: seq<Word>, start: nat, end: nat) {
    && Tiles(w.headers, list, start, end)
    && list[|list| - 1] < w.current && w.headers[list[|list| - 1]].next == NULL
  }

  ghost predicate Detached(w: World, start: nat, end: nat) {
    exists list :: DetachedBy(w, list, start, end)
  }

  lemma NextToLast(w: World, list: seq<Word>, m: nat, start: nat, end: nat)
    requires ListedBy(w, list, start, end) && m < |list|
    requires list[m] != w.current && w.headers[list[m]].next == w.current
    ensures m + 2 == |list|
  {
    if m + 1 < |list| - 1 {
      TilesIncrease(w.headers, list, start, end, m + 1, |list| - 1);
    }
  }

  lemma ReleasedOnly(h: Headers, a: Word, b: Word)
    requires a in h && b in h && a != b
    ensures var h' := Released(h, a); !h'[a].reserved && h'[b] == h[b] && h'.Keys == h.Keys
  {
  }

  /** A freed block directly in front of the current one swallows it. */
  lemma FreeDetaches(w: World, p: Word, start: nat, end: nat)
    requires Safe(w, start, end) && Listed(w, start, end) && Step(w, Free(p)).Some?
    requires p + w.live[p] == w.current
    ensures Detached(Step(w, Free(p)).value, start, end)
  {
    hide Step, AfterMerge, Released;
    var a := FreeStep(w, p, start, end);
    var list :| ListedBy(w, list, start, end);
    var w' := Step(w, Free(p)).value;
    var m :| 0 <= m < |list| && list[m] + HEADER == p;
    NextToLast(w, list, m, start, end);
    assert !w.headers[w.current].reserved && w.headers[w.current].next == NULL;
    hide Safe;
    MergedNext(w.headers, a, w.current);
    ReleaseTiles(w.headers, list, start, end, m);
    ReleasedOnly(w.headers, a, w.current);
    assert list[m + 1] == w.current;
    MergeTiles(Released(w.headers, a), list, start, end, m);
    var list' := list[..m + 1] + list[m + 2..];
    LastStays(list, m, a);
    assert DetachedBy(w', list', start, end);
  }

  /** A list that ends before the current block leaves no other list that reaches it. */
  lemma DetachedUnlisted(w: World, start: nat, end: nat)
    requires Detached(w, start, end)
    ensures !Listed(w, start, end)
  {
    var list :| DetachedBy(w, list, start, end);
    var m := |list| - 1;
    forall list'
      ensures !ListedBy(w, list', start, end)
    {
      if ListedBy(w, list', start, end) {
        SameUpTo(w.headers, w.headers, list, list', start, end, m);
        NextNotNull(w.headers, list', start, end, m);
        if |list'| <= m {
          TilesIncrease(w.headers, list, start, end, |list'| - 1, m);
        }
        assert false;
      }
    }
  }

  lemma NextNotNull(h: Headers, list: seq<Word>, start: nat, end: nat, m: nat)
    requires Tiles(h, list, start, end)
    ensures m + 1 < |list| ==> h[list[m]].next != NULL
  {
    if m + 1 < |list| {
      assert h[list[m]].next == list[m + 1] == list[m] + HEADER + h[list[m]].size;
    }
  }

  lemma MergedNext(h: Headers, a: Word, b: Word)
    requires a in h && b in h && a != b && !h[b].reserved && a + h[a].size + HEADER == b
    ensures var h' := AfterMerge(Released(h, a), a, b);
            && a in h' && h'[a].next == h[b].next && forall x :: x in h && x != a ==> x in h' && h'[x] == h[x]
  {
    SmallWord(a + h[a].size + HEADER);
  }

  /** Two tilings that agree on the headers before position m have the same blocks up to m. */
  lemma {:induction false} SameUpTo(h: Headers, h': Headers, list: seq<Word>, list': seq<Word>,
                                    start: nat, end: nat, m: nat)
    requires Tiles(h, list, start, end) && Tiles(h', list', start, end) && m < |list|
    requires forall k :: 0 <= k < m ==> list[k] in h' && h'[list[k]] == h[list[k]]
    ensures forall k :: 0 <= k <= m && k < |list'| ==> list'[k] == list[k]
  {
    if m > 0 {
      SameUpTo(h, h', list, list', start, end, m - 1);
      if m < |list'| {
        assert h[list[m - 1]].next == list[m] && h'[list'[m - 1]].next == list'[m];
      }
    }
  }

  /** A free keeps the list intact exactly when the freed block does not touch the current one. */
  lemma FreeListedIff(w: World, p: Word, start: nat, end: nat)
    requires Safe(w, start, end) && Listed(w, start, end) && Step(w, Free(p)).Some?
    ensures Listed(Step(w, Free(p)).value, start, end) <==> p + w.live[p] != w.current
  {
    if p + w.live[p] != w.current {
      FreeListed(w, p, start, end);
    } else {
      FreeDetaches(w, p, start, end);
      DetachedUnlisted(Step(w, Free(p)).value, start, end);
    }
  }

  // ----- the list over whole runs

  lemma MallocDetached(w: World, size: Word64, start: nat, end: nat)
    requires Safe(w, start, end) && Detached(w, start, end) && Step(w, Malloc(size)).Some?
    ensures Detached(Step(w, Malloc(size)).value, start, end)
  {
    hide AfterSplit, SplitPoint, Wrap32, SplitCode;
    SplitCurrent(w.headers, w.current, Wrap32(size), end);
    var list :| DetachedBy(w, list, start, end);
    var w' := Step(w, Malloc(size)).value;
    forall k | 0 <= k < |list|
      ensures list[k] in w'.headers && w'.headers[list[k]] == w.headers[list[k]]
    {
      if k < |list| - 1 {
        TilesIncrease(w.headers, list, start, end, k, |list| - 1);
      }
    }
    assert DetachedBy(w', list, start, end);
  }

  lemma FreeDetached(w: World, p: Word, start: nat, end: nat)
    requires Safe(w, start, end) && Detached(w, start, end) && Step(w, Free(p)).Some?
    ensures Detached(Step(w, Free(p)).value, start, end)
  {
    hide Step;
    var a := FreeStep(w, p, start, end);
    var list :| DetachedBy(w, list, start, end);
    var w' := Step(w, Free(p)).value;
    hide Safe;
    if a in list {
      var m :| 0 <= m < |list| && list[m] == a;
      FreeInside(w, p, a, list, m, start, end);
    } else {
      OneHeader(w.headers, a, w.headers[a].next);
      assert DetachedBy(w', list, start, end);
    }
  }

  lemma OneHeader(h: Headers, a: Word, b: Word)
    requires a in h && b in h
    ensures var h' := AfterMerge(Released(h, a), a, b);
            h'.Keys == h.Keys && forall x :: x in h && x != a ==> h'[x] == h[x]
  {
    hide Wrap32, Wrap64;
  }

  /** Freeing a block of a list that ends before the current one leaves such a list. */
  lemma FreeInside(w: World, p: Word, a: Word, list: seq<Word>, m: nat, start: nat, end: nat)
    requires DetachedBy(w, list, start, end) && m < |list| && list[m] == a
    requires p in w.live && w.headers[a].next in w.headers && w.headers[a].next != NULL
    requires Step(w, Free(p)).Some?
    requires Step(w, Free(p)).value.headers == AfterMerge(Released(w.headers, a), a, w.headers[a].next)
    requires Step(w, Free(p)).value.current == w.current
    ensures Detached(Step(w, Free(p)).value, start, end)
  {
    hide Step, AfterMerge;
    var w', h, b := Step(w, Free(p)).value, Released(w.headers, a), list[m + 1];
    TilesIncrease(w.headers, list, start, end, m, m + 1);
    ReleaseTiles(w.headers, list, start, end, m);
    MergeKeeps(h, a, b);
    if h[b].reserved {
      assert DetachedBy(w', list, start, end);
    } else {
      MergeTiles(h, list, start, end, m);
      var list' := list[..m + 1] + list[m + 2..];
      LastStays(list, m, a);
      assert DetachedBy(w', list', start, end);
    }
  }

  lemma MergeKeeps(h: Headers, a: Word, b: Word)
    requires a in h && b in h && a != b
    ensures var h' := AfterMerge(h, a, b);
            && (h[b].reserved ==> h' == h) && a in h'
            && (MergeCode(h, a, b) == 0 ==> h'[a].next == h[b].next)
            && forall x :: x in h && x != a ==> x in h' && h'[x] == h[x]
  {
    hide Wrap32, Wrap64;
  }

  lemma LastStays(list: seq<Word>, m: nat, a: Word)
    requires m + 1 < |list| && list[m] == a
    ensures var list' := list[..m + 1] + list[m + 2..];
            list'[|list'| - 1] == if m + 2 == |list| then a else list[|list| - 1]
  {
  }

  /** A free of the block in front of the current one. */
  predicate Touches(w: World, op: Op) {
    op.Free? && op.pointer in w.live && op.pointer + w.live[op.pointer] == w.current
  }

  /** A live block touches the current one exactly when it is the newest block but the current one. */
  lemma TouchesIff(w: World, p: Word, start: nat, end: nat)
    requires Safe(w, start, end) && p in w.live
    ensures Touches(w, Free(p)) <==> |w.points| >= 2 && p == w.points[|w.points| - 2] + HEADER
  {
    hide Intact;
    var k :| 0 <= k && LiveAt(w, p, k);
    var last := |w.points| - 1;
    if k + 1 < last {
      assert w.points[k + 1] + HEADER <= w.points[last] && w.points[k] + HEADER <= w.points[last - 1];
    }
  }

  /** The pointer the last malloc of a run returned, told from the operations alone. */
  function LastPointer(start: nat, ops: seq<Op>): Option<nat> {
    if ops == [] then None
    else
      var init, op := ops[..|ops| - 1], ops[|ops| - 1];
      if op.Malloc? then Some(start + Demand(init) + HEADER) else LastPointer(start, init)
  }

  lemma {:induction false} NewestBlock(start: Word, size: Word64, ops: seq<Op>)
    requires start + HEADER + size < TWO_32 && Run(Begin(start, size), ops).Some?
    ensures var w, last := Run(Begin(start, size), ops).value, LastPointer(start, ops);
            if last.None? then |w.points| == 1
            else |w.points| >= 2 && last.value == w.points[|w.points| - 2] + HEADER
  {
    hide AfterSplit, AfterFree, SplitCode, SplitPoint, Wrap32;
    if ops != [] {
      var init := ops[..|ops| - 1];
      NewestBlock(start, size, init);
      RunConsumes(start, size, init);
      RunSafe(start, size, init);
    }
  }

  /** No free gives back the pointer that the last malloc before it returned. */
  predicate KeepsLast(start: nat, ops: seq<Op>) {
    ops != [] ==>
      var init, op := ops[..|ops| - 1], ops[|ops| - 1];
      KeepsLast(start, init) && (op.Free? ==> LastPointer(start, init) != Some(op.pointer))
  }

  lemma {:induction false} ListedOrDetached(start: Word, size: Word64, ops: seq<Op>)
    requires start + HEADER + size < TWO_32 && Run(Begin(start, size), ops).Some?
    ensures var w := Run(Begin(start, size), ops).value;
            if KeepsLast(start, ops) then Listed(w, start, start + HEADER + size)
            else Detached(w, start, start + HEADER + size)
  {
    hide Listed, Detached, Step, Safe, Begin, LastPointer, Touches;
    var end := start + HEADER + size;
    if ops == [] {
      BeginListed(start, size);
    } else {
      var init, op := ops[..|ops| - 1], ops[|ops| - 1];
      ListedOrDetached(start, size, init);
      RunSafe(start, size, init);
      var w := Run(Begin(start, size), init).value;
      OneStep(w, op, start, end);
      if op.Free? {
        FreesLive(w, op.pointer);
        TouchesIff(w, op.pointer, start, end);
        NewestBlock(start, size, init);
      } else {
        NoTouch(w, op);
      }
    }
  }

  lemma FreesLive(w: World, p: Word)
    requires Step(w, Free(p)).Some?
    ensures p in w.live
  {
  }

  lemma NoTouch(w: World, op: Op)
    requires op.Malloc?
    ensures !Touches(w, op)
  {
  }

  lemma OneStep(w: World, op: Op, start: nat, end: nat)
    requires Safe(w, start, end) && Step(w, op).Some?
    ensures Listed(w, start, end) && !Touches(w, op) ==> Listed(Step(w, op).value, start, end)
    ensures Listed(w, start, end) && Touches(w, op) ==> Detached(Step(w, op).value, start, end)
    ensures Detached(w, start, end) ==> Detached(Step(w, op).value, start, end)
  {
    hide Listed, Detached, Safe, AfterFree, AfterSplit;
    if Listed(w, start, end) {
      match op
      case Malloc(size) => MallocListed(w, size, start, end);
      case Free(p) =>
        if Touches(w, op) {
          FreeDetaches(w, p, start, end);
        } else {
          FreeListed(w, p, start, end);
        }
    }
    if Detached(w, start, end) {
      match op
      case Malloc(size) => MallocDetached(w, size, start, end);
      case Free(p) => FreeDetached(w, p, start, end);
    }
  }

  /** A run keeps the list exactly when none of its frees gives back the pointer that the last
      malloc before it returned. */
  lemma RunListedIff(start: Word, size: Word64, ops: seq<Op>)
    requires start + HEADER + size < TWO_32 && Run(Begin(start, size), ops).Some?
    ensures Listed(Run(Begin(start, size), ops).value, start, start + HEADER + size) <==> KeepsLast(start, ops)
  {
    ListedOrDetached(start, size, ops);
    if !KeepsLast(start, ops) {
      DetachedUnlisted(Run(Begin(start, size), ops).value, start, start + HEADER + size);
    }
  }

  /** One allocation and its free are enough: no list of blocks that tiles the region leads to
      the current block any more. */
  lemma ListBreaks(start: Word, size: Word64)
    requires size >= 100 && start + HEADER + size < TWO_32
    ensures var p := PointerTo(start);
            var before := Run(Begin(start, size), [Malloc(8)]);
            && before.Some? && p in before.value.live
            && Step(before.value, Free(p)).Some?
            && !Listed(Step(before.value, Free(p)).value, start, start + HEADER + size)
  {
    var w, end, p := Begin(start, size), start + HEADER + size, PointerTo(start);
    BeginSafe(start, size);
    BeginListed(start, size);
    SmallWord(8);
    assert Run(w, []) == Some(w) && [Malloc(8)][..0] == [];
    var w' := Step(w, Malloc(8)).value;
    SplitCurrent(w.headers, start, 8, end);
    MallocChain(w, 8, start, end);
    MallocLive(w, 8, start, end);
    MallocListed(w, 8, start, end);
    SmallWord(start + HEADER);
    hide Safe, Listed;
    assert Wrap32(p - HEADER) == start;
    assert p in w'.live && w'.live[p] == 8 && p + 8 == w'.current;
    FreeListedIff(w', p, start, end);
  }
}
