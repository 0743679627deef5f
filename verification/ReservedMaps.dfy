/** What reserving an area means for the bytes of a sorted memory map. */
module ReservedMaps {
  import opened Machine
  import opened MemoryMaps

  function End(r: Region): nat {
    r.base + r.length
  }

  /** No region wraps around, and each ends before the next begins. */
  ghost predicate Sorted(list: seq<Region>) {
    && (forall k :: 0 <= k < |list| ==> End(list[k]) < TWO_64)
    && (forall j, k :: 0 <= j < k < |list| ==> End(list[j]) <= list[k].base)
  }

  predicate Covers(r: Region, a: int) {
    r.base <= a < End(r)
  }

  /** Some region of this kind covers the byte at a. */
  ghost predicate HasKind(list: seq<Region>, a: int, kind: Word) {
    exists k :: 0 <= k < |list| && Covers(list[k], a) && list[k].kind == kind
  }

  lemma EndIs(r: Region)
    requires End(r) < TWO_64
    ensures End64(r) == End(r)
  {
  }

  /** The first region that ends after base starts at or before it, and a later region reaches
      the end of the area: the regions between them go. */
  ghost predicate Placed(list: seq<Region>, base: Word64, length: Word64) {
    var i := FirstAfter(list, base);
    && i < |list| && list[i].base <= base
    && exists k :: i < k < |list| && End(list[k]) >= base + length
  }

  lemma WrapSmall(n: nat)
    requires n < TWO_64
    ensures Wrap64(n) == n
  {
  }

  /** What is left of a region that starts at or before base. */
  function Before(r: Region, base: Word64): Region
    requires r.base <= base
  {
    r.(length := base - r.base)
  }

  /** What is left of a region that reaches next. */
  function Behind(r: Region, next: int): Region
    requires 0 <= next <= End(r) < TWO_64
  {
    if next > r.base then r.(base := next, length := End(r) - next) else r
  }

  lemma CutIsBefore(r: Region, base: Word64)
    requires r.base <= base
    ensures Cut(r, base) == Before(r, base)
  {
    WrapSmall(base - r.base);
  }

  lemma TrimIsBehind(r: Region, next: Word64)
    requires next <= End(r) < TWO_64
    ensures Trim(r, next) == Behind(r, next)
  {
    if next > r.base {
      WrapSmall(r.length - (next - r.base));
    }
  }

  /** A successful reservation, position by position: region i is cut, region j trimmed, and the
      regions between them are gone. */
  ghost predicate Edited(list: seq<Region>, result: seq<Region>, i: nat, j: nat, base: Word64, length: Word64) {
    && i < j < |list| && list[i].base <= base < End(list[i]) && base + length <= End(list[j]) < TWO_64
    && (forall k :: 0 <= k < i ==> End(list[k]) <= base)
    && (forall k :: i < k < j ==> End(list[k]) < base + length)
    && |result| == |list| + i + 2 - j
    && (forall k :: 0 <= k < i ==> result[k] == list[k])
    && result[i] == Before(list[i], base)
    && result[i + 1] == Region(base, length, 2)
    && result[i + 2] == Behind(list[j], base + length)
    && (forall k :: i + 2 < k < |result| ==> result[k] == list[k + j - i - 2])
  }

  lemma EndsAre(list: seq<Region>)
    requires Sorted(list)
    ensures forall k :: 0 <= k < |list| ==> End64(list[k]) == End(list[k])
  {
    forall k | 0 <= k < |list|
      ensures End64(list[k]) == End(list[k])
    {
      EndIs(list[k]);
    }
  }

  /** The region the search for the end of the area stops at. */
  lemma FirstReachingLater(list: seq<Region>, i: nat, next: Word64) returns (j: nat)
    requires i < |list| && Sorted(list) && exists k :: i < k < |list| && End(list[k]) >= next
    ensures i < j < |list| && j == i + 1 + FirstReaching(list[i + 1..], next) && End(list[j]) >= next
    ensures forall k :: i < k < j ==> End(list[k]) < next
  {
    hide End64, End, Sorted, FirstReaching;
    EndsAre(list);
    var later := list[i + 1..];
    var w :| i < w < |list| && End(list[w]) >= next;
    assert later[w - i - 1] == list[w] && End64(list[w]) == End(list[w]);
    j := i + 1 + FirstReaching(later, next);
    assert FirstReaching(later, next) <= w - i - 1;
    assert later[j - i - 1] == list[j];
    forall k | i < k < j
      ensures End(list[k]) < next
    {
      assert later[k - i - 1] == list[k];
    }
  }

  /** Reserve with its searches carried out. */
  lemma ReservePieces(list: seq<Region>, spare: Region, base: Word64, length: Word64, i: nat, j: nat)
    requires i == FirstAfter(list, base) < j < |list|
    requires j == i + 1 + FirstReaching(list[i + 1..], Wrap64(base + length))
    ensures Reserve(list, spare, base, length)
            == list[..i] + [Cut(list[i], base)] + [Region(base, length, 2)]
               + [Trim(list[j], Wrap64(base + length))] + list[j + 1..]
  {
    hide Cut, Trim, Wrap64, FirstReaching, FirstAfter, End64;
    LaterIs(list, i, j);
  }

  lemma LaterIs(list: seq<Region>, i: nat, j: nat)
    requires i < j < |list|
    ensures list[i + 1..][j - i - 1] == list[j] && list[i + 1..][j - i - 1 + 1..] == list[j + 1..]
  {
  }

  lemma PiecesAt(list: seq<Region>, i: nat, j: nat, c: Region, r: Region, t: Region, result: seq<Region>)
    requires i < j < |list| && result == list[..i] + [c] + [r] + [t] + list[j + 1..]
    ensures |result| == |list| + i + 2 - j
    ensures forall k :: 0 <= k < i ==> result[k] == list[k]
    ensures result[i] == c && result[i + 1] == r && result[i + 2] == t
    ensures forall k :: i + 2 < k < |result| ==> result[k] == list[k + j - i - 2]
  {
  }

  lemma ReserveEdits(list: seq<Region>, spare: Region, base: Word64, length: Word64) returns (j: nat)
    requires Sorted(list) && base + length < TWO_64 && Placed(list, base, length)
    ensures Edited(list, Reserve(list, spare, base, length), FirstAfter(list, base), j, base, length)
  {
    hide End64, Wrap64, Cut, Trim, Reserve, Before, Behind, FirstAfter, FirstReaching;
    var i := FirstAfter(list, base);
    EndsAre(list);
    WrapSmall(base + length);
    j := FirstReachingLater(list, i, base + length);
    CutIsBefore(list[i], base);
    TrimIsBehind(list[j], base + length);
    ReservePieces(list, spare, base, length, i, j);
    PiecesAt(list, i, j, Cut(list[i], base), Region(base, length, 2), Trim(list[j], base + length),
             Reserve(list, spare, base, length));
  }

  lemma EditedOrder(list: seq<Region>, result: seq<Region>, i: nat, j: nat, base: Word64, length: Word64,
                    m: nat, n: nat)
    requires Sorted(list) && Edited(list, result, i, j, base, length) && base + length < TWO_64 && m < n < |result|
    ensures End(result[m]) <= result[n].base && End(result[m]) < TWO_64 && End(result[n]) < TWO_64
  {
    var from := if m <= i then m else if m == i + 1 then i else m + j - i - 2;
    var to := if n <= i then n else if n == i + 1 then i else n + j - i - 2;
    assert End(list[from]) < TWO_64 && End(list[to]) < TWO_64;
    if from < to {
      assert End(list[from]) <= list[to].base;
    }
  }

  lemma PlacedSorted(list: seq<Region>, spare: Region, base: Word64, length: Word64)
    requires Sorted(list) && base + length < TWO_64 && Placed(list, base, length)
    ensures Sorted(Reserve(list, spare, base, length))
    ensures Region(base, length, 2) in Reserve(list, spare, base, length)
  {
    hide Reserve;
    var i := FirstAfter(list, base);
    var j := ReserveEdits(list, spare, base, length);
    var result := Reserve(list, spare, base, length);
    assert result[i + 1] == Region(base, length, 2) && |result| >= 2;
    assert Region(base, length, 2) in result;
    hide Edited;
    forall m, n | 0 <= m < n < |result|
      ensures End(result[m]) <= result[n].base && End(result[m]) < TWO_64 && End(result[n]) < TWO_64
    {
      EditedOrder(list, result, i, j, base, length, m, n);
    }
    forall k | 0 <= k < |result|
      ensures End(result[k]) < TWO_64
    {
      EditedOrder(list, result, i, j, base, length, 0, if k == 0 then 1 else k);
    }
  }

  /** A byte of the result comes from a byte of the list, or is reserved. */
  lemma EditedByteFrom(list: seq<Region>, result: seq<Region>, i: nat, j: nat, base: Word64, length: Word64,
                       a: int, k: nat)
    requires Sorted(list) && Edited(list, result, i, j, base, length) && k < |result| && Covers(result[k], a)
    ensures if k == i + 1 then base <= a < base + length && result[k].kind == 2
            else !(base <= a < base + length) && HasKind(list, a, result[k].kind)
                 && (a >= base + length ==> !Covers(list[i], a))
  {
    if k != i + 1 {
      var source := if k <= i then k else k + j - i - 2;
      assert Covers(list[source], a) && list[source].kind == result[k].kind;
    }
  }

  /** A byte outside the area stays, unless it belongs to the cut region and lies behind the area. */
  lemma EditedByteTo(list: seq<Region>, result: seq<Region>, i: nat, j: nat, base: Word64, length: Word64,
                     a: int, k: nat)
    requires Sorted(list) && Edited(list, result, i, j, base, length) && k < |list| && Covers(list[k], a)
    requires !(base <= a < base + length) && !(a >= base + length && k == i)
    ensures HasKind(result, a, list[k].kind)
  {
    assert k <= i || k >= j;
    var target := if k <= i then k else k + i + 2 - j;
    assert Covers(result[target], a) && result[target].kind == list[k].kind;
  }

  lemma PlacedBytes(list: seq<Region>, spare: Region, base: Word64, length: Word64, a: int, kind: Word)
    requires Sorted(list) && base + length < TWO_64 && Placed(list, base, length)
    ensures HasKind(Reserve(list, spare, base, length), a, kind)
            <==> if base <= a < base + length then kind == 2
                 else HasKind(list, a, kind) && !(a >= base + length && Covers(list[FirstAfter(list, base)], a))
  {
    hide Reserve, Sorted;
    var i := FirstAfter(list, base);
    var j := ReserveEdits(list, spare, base, length);
    var result := Reserve(list, spare, base, length);
    if HasKind(result, a, kind) {
      var k :| 0 <= k < |result| && Covers(result[k], a) && result[k].kind == kind;
      EditedByteFrom(list, result, i, j, base, length, a, k);
    }
    if base <= a < base + length {
      assert Covers(result[i + 1], a);
    } else if HasKind(list, a, kind) && !(a >= base + length && Covers(list[i], a)) {
      var k :| 0 <= k < |list| && Covers(list[k], a) && list[k].kind == kind;
      EditedByteTo(list, result, i, j, base, length, a, k);
    }
  }

  // ----- exactly when a reservation succeeds

  ghost predicate Succeeded(result: seq<Region>, base: Word64, length: Word64) {
    Sorted(result) && Region(base, length, 2) in result
  }

  /** The first region that ends after base starts at or before it, and the end of the area is
      reached by a later region, or, when there is no later one, by whatever the slot behind the
      list happens to hold. */
  ghost predicate WellPlaced(list: seq<Region>, spare: Region, base: Word64, length: Word64) {
    var i := FirstAfter(list, base);
    && i < |list| && list[i].base <= base
    && (ReachedLater(list, i, base + length) || (i + 1 == |list| && End64(spare) >= base + length))
  }

  ghost predicate ReachedLater(list: seq<Region>, i: nat, next: int) {
    exists k :: i < k < |list| && End(list[k]) >= next
  }

  /** Reserve when no later region reaches the end of the area. */
  lemma ReserveWithoutLater(list: seq<Region>, spare: Region, base: Word64, length: Word64, i: nat)
    requires Sorted(list) && base + length < TWO_64 && i == FirstAfter(list, base) < |list|
    requires !ReachedLater(list, i, base + length)
    ensures Reserve(list, spare, base, length)
            == if i + 1 == |list| && End64(spare) >= base + length
               then list[..i] + [Cut(list[i], base)] + [Region(base, length, 2)]
               else list[..i] + [Cut(list[i], base)]
  {
    hide End64, Cut, Trim, Wrap64, FirstReaching, FirstAfter, Sorted, ReachedLater;
    WrapSmall(base + length);
    NothingReaches(list, i, base + length);
  }

  lemma NothingReaches(list: seq<Region>, i: nat, next: Word64)
    requires Sorted(list) && i < |list| && !ReachedLater(list, i, next)
    ensures FirstReaching(list[i + 1..], next) == |list[i + 1..]|
  {
    hide End64, FirstReaching;
    EndsAre(list);
    var later := list[i + 1..];
    forall k | 0 <= k < |later|
      ensures End64(later[k]) < next
    {
      assert later[k] == list[i + 1 + k];
    }
  }

  lemma CutWraps(r: Region, base: Word64)
    requires r.base > base
    ensures End(Cut(r, base)) == base + TWO_64
  {
    var d := base - r.base;
    assert (d + TWO_64) % TWO_64 == d + TWO_64;
    assert d % TWO_64 == (d + TWO_64) % TWO_64;
  }

  /** The cut region stays in the list, whatever happens to the others. */
  lemma CutStays(list: seq<Region>, spare: Region, base: Word64, length: Word64, i: nat)
    requires i == FirstAfter(list, base) < |list|
    ensures i < |Reserve(list, spare, base, length)| && Reserve(list, spare, base, length)[i] == Cut(list[i], base)
  {
    hide End64, Cut, Trim, Wrap64, FirstReaching;
  }

  lemma AloneSucceeds(list: seq<Region>, base: Word64, length: Word64, i: nat)
    requires Sorted(list) && base + length < TWO_64 && i == FirstAfter(list, base) < |list| && list[i].base <= base
    ensures Succeeded(list[..i] + [Cut(list[i], base)] + [Region(base, length, 2)], base, length)
  {
    hide Cut, Sorted;
    CutIsBefore(list[i], base);
    SortedEnd(list, i, Before(list[i], base), Region(base, length, 2));
    var result := list[..i] + [Cut(list[i], base)] + [Region(base, length, 2)];
    assert result[i + 1] == Region(base, length, 2);
  }

  /** A shorter region and one behind it may take the place of the regions from i on. */
  lemma SortedEnd(list: seq<Region>, i: nat, cut: Region, last: Region)
    requires Sorted(list) && i < |list| && cut.base == list[i].base
    requires End(cut) <= last.base && End(last) < TWO_64
    ensures Sorted(list[..i] + [cut] + [last])
  {
    var result := list[..i] + [cut] + [last];
    forall k | 0 <= k < i
      ensures result[k] == list[k] && End(result[k]) <= cut.base
    {
      assert End(list[k]) <= list[i].base;
    }
  }

  lemma NotReserved(list: seq<Region>, base: Word64, length: Word64, i: nat)
    requires Sorted(list) && 0 < length && base + length < TWO_64
    requires i == FirstAfter(list, base) < |list| && list[i].base <= base
    ensures Region(base, length, 2) !in list[..i] + [Cut(list[i], base)]
  {
    hide Cut;
    CutIsBefore(list[i], base);
    EndsAre(list);
    var result := list[..i] + [Cut(list[i], base)];
    forall k | 0 <= k < |result|
      ensures End(result[k]) <= base
    {
    }
  }

  /** The result when there is no later region. */
  lemma ReserveAlone(list: seq<Region>, spare: Region, base: Word64, length: Word64, i: nat)
    requires Sorted(list) && base + length < TWO_64 && WellPlaced(list, spare, base, length)
    requires i == FirstAfter(list, base)
    requires !ReachedLater(list, i, base + length)
    ensures i + 1 == |list|
    ensures Reserve(list, spare, base, length)
            == list[..i] + [Before(list[i], base)] + [Region(base, length, 2)]
    ensures forall k :: 0 <= k < i ==> End(list[k]) <= base
  {
    hide Reserve, Cut, Before;
    EndsAre(list);
    CutIsBefore(list[i], base);
    ReserveWithoutLater(list, spare, base, length, i);
  }

  lemma AloneBytes(list: seq<Region>, i: nat, base: Word64, length: Word64, a: int, kind: Word)
    requires i + 1 == |list| && list[i].base <= base < End(list[i])
    requires forall k :: 0 <= k < i ==> End(list[k]) <= base
    ensures HasKind(list[..i] + [Before(list[i], base)] + [Region(base, length, 2)], a, kind)
            <==> if base <= a < base + length then kind == 2
                 else HasKind(list, a, kind) && !(a >= base + length && Covers(list[i], a))
  {
    var result := list[..i] + [Before(list[i], base)] + [Region(base, length, 2)];
    if HasKind(result, a, kind) {
      var k :| 0 <= k < |result| && Covers(result[k], a) && result[k].kind == kind;
      if k <= i {
        assert Covers(list[k], a) && list[k].kind == kind;
      }
    }
    if base <= a < base + length {
      assert Covers(result[i + 1], a);
    } else if HasKind(list, a, kind) && !(a >= base + length && Covers(list[i], a)) {
      var k :| 0 <= k < |list| && Covers(list[k], a) && list[k].kind == kind;
      assert Covers(result[k], a) && result[k].kind == kind;
    }
  }

  /** A well-placed reservation leaves a sorted map that holds the area. */
  lemma ReserveSorted(list: seq<Region>, spare: Region, base: Word64, length: Word64)
    requires Sorted(list) && base + length < TWO_64 && WellPlaced(list, spare, base, length)
    ensures Sorted(Reserve(list, spare, base, length))
    ensures Region(base, length, 2) in Reserve(list, spare, base, length)
  {
    hide Reserve, End64, FirstAfter;
    var i := FirstAfter(list, base);
    if ReachedLater(list, i, base + length) {
      PlacedSorted(list, spare, base, length);
    } else {
      ReserveWithoutLater(list, spare, base, length, i);
      AloneSucceeds(list, base, length, i);
    }
  }

  /** Byte by byte: the area is reserved and nothing else; outside it every byte keeps its kind,
      except that the part of the cut region behind the area is lost. */
  lemma ReserveBytes(list: seq<Region>, spare: Region, base: Word64, length: Word64, a: int, kind: Word)
    requires Sorted(list) && base + length < TWO_64 && WellPlaced(list, spare, base, length)
    ensures HasKind(Reserve(list, spare, base, length), a, kind)
            <==> if base <= a < base + length then kind == 2
                 else HasKind(list, a, kind) && !(a >= base + length && Covers(list[FirstAfter(list, base)], a))
  {
    hide Reserve, End64, HasKind, Sorted, Before;
    var i := FirstAfter(list, base);
    if ReachedLater(list, i, base + length) {
      PlacedBytes(list, spare, base, length, a, kind);
    } else {
      ReserveAlone(list, spare, base, length, i);
      EndsAre(list);
      AloneBytes(list, i, base, length, a, kind);
    }
  }

  /** Bytes outside the area are kept exactly when the cut region does not reach behind the area. */
  lemma ReserveLosesNothing(list: seq<Region>, spare: Region, base: Word64, length: Word64)
    requires Sorted(list) && base + length < TWO_64 && WellPlaced(list, spare, base, length)
    ensures End(list[FirstAfter(list, base)]) <= base + length
            <==> forall a, kind :: !(base <= a < base + length) ==>
                   (HasKind(Reserve(list, spare, base, length), a, kind) <==> HasKind(list, a, kind))
  {
    var i, result := FirstAfter(list, base), Reserve(list, spare, base, length);
    EndsAre(list);
    hide Reserve, Sorted, WellPlaced, FirstAfter;
    forall a, kind
      ensures HasKind(result, a, kind)
              <==> if base <= a < base + length then kind == 2
                   else HasKind(list, a, kind) && !(a >= base + length && Covers(list[i], a))
    {
      ReserveBytes(list, spare, base, length, a, kind);
    }
    if End(list[i]) > base + length {
      var a := End(list[i]) - 1;
      assert Covers(list[i], a) && HasKind(list, a, list[i].kind);
      assert !HasKind(result, a, list[i].kind);
    }
  }

  /** Reserving leaves a sorted map that holds the area exactly when the reservation is well placed. */
  lemma ReserveSucceedsIff(list: seq<Region>, spare: Region, base: Word64, length: Word64)
    requires Sorted(list) && 0 < length && base + length < TWO_64
    ensures Succeeded(Reserve(list, spare, base, length), base, length) <==> WellPlaced(list, spare, base, length)
  {
    hide End64, Cut, FirstAfter;
    var i := FirstAfter(list, base);
    EndsAre(list);
    if i == |list| {
      assert Reserve(list, spare, base, length) == list;
      if Region(base, length, 2) in list {
        EndIs(Region(base, length, 2));
        assert false;
      }
      return;
    }
    hide Reserve;
    CutStays(list, spare, base, length, i);
    if list[i].base > base {
      CutWraps(list[i], base);
    } else if ReachedLater(list, i, base + length) {
      PlacedSorted(list, spare, base, length);
    } else {
      ReserveWithoutLater(list, spare, base, length, i);
      AloneSucceeds(list, base, length, i);
      NotReserved(list, base, length, i);
    }
  }

  /** Reserving below the first region wraps its length: the map is no longer sorted. */
  lemma ReserveBelowFails(spare: Region)
    ensures var list := [Region(0x1000, 0x1000, 1), Region(0x2000, 0x1000, 1)];
            Sorted(list) && !Sorted(Reserve(list, spare, 0x800, 0x100))
  {
    var list := [Region(0x1000, 0x1000, 1), Region(0x2000, 0x1000, 1)];
    var i := FirstAfter(list, 0x800);
    assert i == 0;
    CutStays(list, spare, 0x800, 0x100, 0);
    CutWraps(list[0], 0x800);
  }

  /** The tail of the cut region is lost: byte 0x800 was in a region of kind 1 and is in none any more. */
  lemma ReserveLosesTail(spare: Region, kind: Word)
    ensures var list := [Region(0, 0x1000, 1), Region(0x1000, 0x1000, 1)];
            && Sorted(list) && HasKind(list, 0x800, 1)
            && Succeeded(Reserve(list, spare, 0x100, 0x100), 0x100, 0x100)
            && !HasKind(Reserve(list, spare, 0x100, 0x100), 0x800, kind)
  {
    var list := [Region(0, 0x1000, 1), Region(0x1000, 0x1000, 1)];
    assert FirstAfter(list, 0x100) == 0 && Covers(list[0], 0x800);
    assert End(list[1]) >= 0x200;
    hide Reserve;
    ReserveSorted(list, spare, 0x100, 0x100);
    ReserveBytes(list, spare, 0x100, 0x100, 0x800, kind);
  }

  /** An area that ends behind the last region: the removal loop takes that region and then the
      reserved one as well, whatever the slot behind the list holds. */
  lemma ReserveRemovesItself(spare: Region)
    ensures var list := [Region(0, 0x1000, 1), Region(0x1000, 0x1000, 1)];
            Sorted(list) && Reserve(list, spare, 0x800, 0x4000) == [Region(0, 0x800, 1)]
  {
    var list := [Region(0, 0x1000, 1), Region(0x1000, 0x1000, 1)];
    assert FirstAfter(list, 0x800) == 0;
    ReserveWithoutLater(list, spare, 0x800, 0x4000, 0);
    assert list[..0] + [Cut(list[0], 0x800)] == [Region(0, 0x800, 1)];
  }

  // ----- usable memory

  /** Every byte of the area becomes reserved. A byte is usable exactly when it was, lies outside the area,
      and is not in the tail of the cut region. */
  lemma UsableBytes(list: seq<Region>, spare: Region, base: Word64, length: Word64, a: int)
    requires Sorted(list) && base + length < TWO_64 && WellPlaced(list, spare, base, length)
    ensures var result, cut := Reserve(list, spare, base, length), list[FirstAfter(list, base)];
            && (base <= a < base + length ==> HasKind(result, a, 2) && !HasKind(result, a, 1))
            && (HasKind(result, a, 1)
                <==> HasKind(list, a, 1) && !(base <= a < base + length) && !(base + length <= a && Covers(cut, a)))
            && (End(cut) <= base + length ==>
                  (HasKind(result, a, 1) <==> HasKind(list, a, 1) && !(base <= a < base + length)))
  {
    hide Reserve, HasKind, WellPlaced, Sorted;
    assert FirstAfter(list, base) < |list| by {
      PlacedInside(list, spare, base, length);
    }
    ReserveBytes(list, spare, base, length, a, 1);
    ReserveBytes(list, spare, base, length, a, 2);
  }

  lemma PlacedInside(list: seq<Region>, spare: Region, base: Word64, length: Word64)
    requires WellPlaced(list, spare, base, length)
    ensures FirstAfter(list, base) < |list|
  {
  }

  /** The area the kernel itself occupies, on the map of a small machine: the hole it lies in is reserved
      and no byte of it is usable. */
  lemma BootArea(spare: Region, a: int)
    ensures var list := [Region(0, 0x9FC00, 1), Region(0x9FC00, 0x400, 2), Region(0xF0000, 0x10000, 2)];
            var result := Reserve(list, spare, 0x7C00, 0xB8400);
            && (0x7C00 <= a < 0xC0000 ==> HasKind(result, a, 2) && !HasKind(result, a, 1))
            && (HasKind(result, a, 1) <==> 0 <= a < 0x7C00)
  {
    var list := [Region(0, 0x9FC00, 1), Region(0x9FC00, 0x400, 2), Region(0xF0000, 0x10000, 2)];
    assert FirstAfter(list, 0x7C00) == 0;
    assert End(list[2]) >= 0xC0000 && ReachedLater(list, 0, 0xC0000);
    assert HasKind(list, a, 1) <==> 0 <= a < 0x9FC00 by {
      if 0 <= a < 0x9FC00 {
        assert Covers(list[0], a);
      }
    }
    hide Reserve, HasKind;
    UsableBytes(list, spare, 0x7C00, 0xB8400, a);
  }

  // ----- every outcome

  /** The cut region: its length wraps around where it starts behind base. */
  function CutTo(r: Region, base: Word64): Region {
    Region(r.base, (base - r.base) % TWO_64, r.kind)
  }

  lemma FirstIs(list: seq<Region>, base: Word64, i: nat)
    requires Sorted(list) && i <= |list| && (forall k :: 0 <= k < i ==> End(list[k]) <= base)
    requires i < |list| ==> End(list[i]) > base
    ensures FirstAfter(list, base) == i
  {
    EndsAre(list);
    hide FirstAfter, End64;
  }

  lemma ReachingIs(list: seq<Region>, i: nat, j: nat, next: Word64)
    requires Sorted(list) && i < j < |list|
    requires (forall k :: i < k < j ==> End(list[k]) < next) && End(list[j]) >= next
    ensures j == i + 1 + FirstReaching(list[i + 1..], next)
  {
    hide FirstReaching, End64;
    var found := FirstReachingLater(list, i, next);
    assert found == j;
  }

  lemma CutToIs(r: Region, base: Word64)
    ensures Cut(r, base) == CutTo(r, base)
  {
  }

  /** Behind all regions nothing happens. */
  lemma ReserveBehindAll(list: seq<Region>, spare: Region, base: Word64, length: Word64)
    requires Sorted(list) && base + length < TWO_64 && forall k :: 0 <= k < |list| ==> End(list[k]) <= base
    ensures Reserve(list, spare, base, length) == list
  {
    FirstIs(list, base, |list|);
    hide FirstAfter;
  }

  /** When region i is the first that ends after base, and j the first later one that reaches the end of
      the area, i is cut, the area follows, j loses what lies in it, and the regions between them go. */
  lemma ReserveReached(list: seq<Region>, spare: Region, base: Word64, length: Word64, i: nat, j: nat)
    requires Sorted(list) && base + length < TWO_64 && i < j < |list|
    requires (forall k :: 0 <= k < i ==> End(list[k]) <= base) && End(list[i]) > base
    requires (forall k :: i < k < j ==> End(list[k]) < base + length) && End(list[j]) >= base + length
    ensures Reserve(list, spare, base, length)
            == list[..i] + [CutTo(list[i], base)] + [Region(base, length, 2)] + [RestFrom(list[j], base + length)]
               + list[j + 1..]
  {
    hide FirstAfter, FirstReaching, Reserve, Trim, Cut, CutTo, RestFrom, Wrap64, End64, End, Sorted;
    FirstIs(list, base, i);
    ReachingIs(list, i, j, base + length);
    CutToIs(list[i], base);
    EndFits(list, j);
    RestIs(list[j], base + length);
    WrapSmall(base + length);
    ReservePieces(list, spare, base, length, i, j);
  }

  /** What is left of a region from next on. */
  function RestFrom(r: Region, next: int): Region
    requires 0 <= next <= r.base + r.length < TWO_64
  {
    if next > r.base then Region(next, r.base + r.length - next, r.kind) else r
  }

  lemma EndFits(list: seq<Region>, j: nat)
    requires Sorted(list) && j < |list|
    ensures End(list[j]) == list[j].base + list[j].length < TWO_64
  {
  }

  lemma RestIs(r: Region, next: Word64)
    requires next <= End(r) < TWO_64
    ensures Trim(r, next) == RestFrom(r, next)
  {
    TrimIsBehind(r, next);
  }

  /** When no later region reaches the end of the area, they all go, and so does the area itself, unless i
      was the last region and the slot behind the list reaches the end. */
  lemma ReserveUnreached(list: seq<Region>, spare: Region, base: Word64, length: Word64, i: nat)
    requires Sorted(list) && base + length < TWO_64 && i < |list|
    requires (forall k :: 0 <= k < i ==> End(list[k]) <= base) && End(list[i]) > base
    requires forall k :: i < k < |list| ==> End(list[k]) < base + length
    ensures Reserve(list, spare, base, length)
            == list[..i] + [CutTo(list[i], base)]
               + if i + 1 == |list| && (spare.base + spare.length) % TWO_64 >= base + length
                 then [Region(base, length, 2)] else []
  {
    FirstIs(list, base, i);
    CutToIs(list[i], base);
    hide FirstAfter, Reserve, Cut, CutTo;
    ReserveWithoutLater(list, spare, base, length, i);
  }
}
