/** The firmware memory map and the reservation of an area in it. */
module MemoryMaps {
  import opened Machine

  const TWO_64 := 0x1_0000_0000_0000_0000

  type Word64 = w: int | 0 <= w < 0x1_0000_0000_0000_0000

  datatype Region = Region(base: Word64, length: Word64, kind: Word)

  const RESERVED: Word := 2

  function Wrap64(i: int): Word64 {
    i % TWO_64
  }

  /** The first address behind a region, as a 64-bit sum. */
  function End64(r: Region): Word64 {
    Wrap64(r.base + r.length)
  }

  // ----- the edit, as a function of the list

  /** The first region that ends after base. */
  function FirstAfter(list: seq<Region>, base: int): (i: nat)
    ensures i <= |list|
    ensures i < |list| ==> End64(list[i]) > base
    ensures forall k :: 0 <= k < i ==> End64(list[k]) <= base
  {
    if list == [] || End64(list[0]) > base then 0 else 1 + FirstAfter(list[1..], base)
  }

  /** The first region that ends at or after an address. */
  function FirstReaching(list: seq<Region>, next: Word64): (i: nat)
    ensures i <= |list|
    ensures i < |list| ==> End64(list[i]) >= next
    ensures forall k :: 0 <= k < i ==> End64(list[k]) < next
  {
    if list == [] || End64(list[0]) >= next then 0 else 1 + FirstReaching(list[1..], next)
  }

  /** What is left of a region before base. */
  function Cut(r: Region, base: Word64): Region {
    r.(length := Wrap64(base - r.base))
  }

  lemma CutIs(r: Region, base: Word64)
    ensures Cut(r, base) == r.(length := Wrap64(base - r.base))
  {
  }

  /** What is left of a region from next on. */
  function Trim(r: Region, next: Word64): Region {
    if next > r.base then r.(base := next, length := Wrap64(r.length - (next - r.base))) else r
  }

  /** The list after reserving; spare is the slot behind the list, which the search for the next
      region runs into when the reserved area is not followed by one. */
  function Reserve(list: seq<Region>, spare: Region, base: Word64, length: Word64): seq<Region> {
    var i, next := FirstAfter(list, base), Wrap64(base + length);
    if i == |list| then list
    else
      var head := list[..i] + [Cut(list[i], base)];
      var later := list[i + 1..];
      var j := FirstReaching(later, next);
      if j < |later| then head + [Region(base, length, RESERVED)] + [Trim(later[j], next)] + later[j + 1..]
      else if later == [] && End64(spare) >= next then head + [Region(base, length, RESERVED)]
      else head
  }

  /** The three outcomes, told by what became of the later regions. */
  lemma ReserveOutcome(list: seq<Region>, spare: Region, base: Word64, length: Word64, result: seq<Region>)
    requires var i := FirstAfter(list, base);
             i < |list| &&
             var later, next := list[i + 1..], Wrap64(base + length);
             var j := FirstReaching(later, next);
             var reserved := list[..i] + [Cut(list[i], base)] + [Region(base, length, RESERVED)];
             result == if j < |later| then (reserved + later[j..])[i + 2 := Trim(later[j], next)]
                       else if later == [] && End64(spare) >= next then reserved
                       else reserved[..i + 1]
    ensures result == Reserve(list, spare, base, length)
  {
    hide Cut, Trim, End64, Wrap64, FirstAfter, FirstReaching;
    var i, next := FirstAfter(list, base), Wrap64(base + length);
    var later := list[i + 1..];
    var j := FirstReaching(later, next);
    var head := list[..i] + [Cut(list[i], base)];
    var reserved := head + [Region(base, length, RESERVED)];
    assert reserved[..i + 1] == head;
    if j < |later| {
      ReplaceHead(reserved, later, j, Trim(later[j], next));
    }
  }

  lemma ReplaceHead(a: seq<Region>, b: seq<Region>, j: nat, r: Region)
    requires j < |b|
    ensures (a + b[j..])[|a| := r] == a + [r] + b[j + 1..]
  {
  }

  // ----- the map, edited in place

  class MemoryMap {
    const slots: array<Region>
    var size: nat

    /** The list can grow by one, and there is a slot behind it. */
    ghost predicate Room()
      reads this
    {
      size + 2 <= slots.Length
    }

    ghost function List(): seq<Region>
      requires size <= slots.Length
      reads this, slots
    {
      slots[..size]
    }

    /** Moves the regions from index on one slot up; slot index keeps its old value. */
    method ShiftMap(index: nat)
      requires size < slots.Length && index <= size
      modifies slots, `size
      ensures size == old(size) + 1
      ensures forall m :: 0 <= m < slots.Length ==>
        slots[m] == if index < m < size then old(slots[m - 1]) else old(slots[m])
    {
      var k := size;
      while k > index
        modifies slots
        invariant index <= k <= size
        invariant forall m :: 0 <= m < slots.Length ==>
          slots[m] == if k < m <= size then old(slots[m - 1]) else old(slots[m])
      {
        slots[k] := slots[k - 1];
        k := k - 1;
      }
      size := size + 1;
    }

    /** Drops the region at index, or just the last one when index is behind the list. */
    method RemoveIndex(index: nat)
      requires 0 < size <= slots.Length && index <= size
      modifies slots, `size
      ensures size == old(size) - 1
      ensures forall m :: 0 <= m < slots.Length ==>
        slots[m] == if index <= m < size then old(slots[m + 1]) else old(slots[m])
    {
      var k := index;
      while k < size - 1
        modifies slots
        invariant k == index || index < k < size
        invariant forall m :: 0 <= m < slots.Length ==>
          slots[m] == if index <= m < k then old(slots[m + 1]) else old(slots[m])
      {
        slots[k] := slots[k + 1];
        k := k + 1;
      }
      size := size - 1;
    }

    /** Cuts region i at base and puts the reserved region behind it. */
    method Insert(i: nat, base: Word64, length: Word64)
      requires Room() && i < size
      modifies slots, `size
      ensures size == old(size) + 1
      ensures var list := old(List()); var later := list[i + 1..];
              && slots[..i + 2] == list[..i] + [Cut(list[i], base)] + [Region(base, length, RESERVED)]
              && slots[i + 2..size] == later
              && (later == [] ==> slots[i + 2] == old(slots[size + 1]))
    {
      hide Cut, Wrap64;
      slots[i] := slots[i].(length := Wrap64(base - slots[i].base));
      assert slots[i] == Cut(old(slots[i]), base) by {
        CutIs(old(slots[i]), base);
      }
      ShiftMap(i + 1);
      slots[i + 1] := Region(base, length, RESERVED);
    }

    /** While regions are removed: j of the later ones are gone; when all are, the slot behind the
        list still holds the last one, and one step further the reserved region is gone as well. */
    ghost predicate Removing(i: nat, kept: seq<Region>, later: seq<Region>, spare: Region, next: Word64, j: nat)
      requires |kept| == i + 2
      reads this, slots
    {
      && i + 1 <= size && i + 2 < slots.Length && size < slots.Length && j <= |later|
      && slots[..i + 2] == kept
      && (forall k :: 0 <= k < j ==> End64(later[k]) < next)
      && (size >= i + 2 ==> slots[..size] == kept + later[j..])
      && (size == i + 2 ==> slots[i + 2] == if later == [] then spare else later[|later| - 1])
      && (size == i + 1 ==> j == |later| && (later == [] ==> End64(spare) < next))
    }

    method RemoveStep(i: nat, next: Word64, ghost kept: seq<Region>, ghost later: seq<Region>,
                      ghost spare: Region, ghost j: nat)
      returns (ghost j': nat)
      requires |kept| == i + 2 && Removing(i, kept, later, spare, next, j)
      requires next > End64(slots[i + 2]) && size > i + 1
      modifies slots, `size
      ensures size < old(size) && Removing(i, kept, later, spare, next, j')
    {
      hide End64;
      ghost var before := slots[..size];
      if j < |later| {
        assert slots[i + 2] == before[i + 2] == later[j];
      }
      RemoveIndex(i + 2);
      assert slots[..i + 2] == kept;
      if j < |later| {
        j' := j + 1;
        assert slots[..size] == before[..i + 2] + before[i + 3..] == kept + later[j'..];
      } else {
        j' := j;
      }
    }

    /** Removes regions behind slot i + 1 until one reaches next; in the end the reserved region
        itself goes when none does. */
    method RemoveCovered(i: nat, next: Word64)
      requires i + 2 <= size < slots.Length
      modifies slots, `size
      ensures var later := old(slots[i + 2..size]); var j := FirstReaching(later, next);
              if j < |later| || (later == [] && End64(old(slots[i + 2])) >= next)
              then size == old(size) - j && slots[..size] == old(slots[..i + 2]) + later[j..]
              else size == i + 1 && slots[..size] == old(slots[..i + 1])
    {
      hide End64;
      ghost var kept, later, spare := slots[..i + 2], slots[i + 2..size], slots[i + 2];
      ghost var j: nat := 0;
      assert slots[..size] == kept + later[0..];
      assert later != [] ==> later[0] == spare;
      while next > End64(slots[i + 2]) && size > i + 1
        modifies slots, `size
        invariant Removing(i, kept, later, spare, next, j)
        decreases size
      {
        j := RemoveStep(i, next, kept, later, spare, j);
      }
      if size > i + 1 && j < |later| {
        assert slots[i + 2] == slots[..size][i + 2] == later[j];
        assert FirstReaching(later, next) == j;
      }
      assert slots[..i + 1] == kept[..i + 1] == old(slots[..i + 1]);
    }

    /** The region behind the reserved one starts no earlier than next; the slot is written even
        when it lies behind the list. */
    method TrimSlot(k: nat, next: Word64)
      requires size <= slots.Length && k < slots.Length
      modifies slots
      ensures slots[..size] == if k < size then old(slots[..size])[k := Trim(old(slots[k]), next)]
                               else old(slots[..size])
    {
      if next > slots[k].base {
        slots[k] := Region(next, Wrap64(slots[k].length - (next - slots[k].base)), slots[k].kind);
      }
    }

    /** Reserves an area: edits the list in place, as Reserve says. */
    method ReserveArea(base: Word64, length: Word64)
      requires Room()
      modifies slots, `size
      ensures size <= slots.Length && List() == Reserve(old(List()), old(slots[size + 1]), base, length)
    {
      ghost var list, spare := List(), slots[size + 1];
      var i := 0;
      while i < size
        modifies slots, `size
        invariant 0 <= i <= size == |list| && Room() && List() == list && slots[size + 1] == spare
        invariant forall k :: 0 <= k < i ==> End64(list[k]) <= base
      {
        if End64(slots[i]) > base {
          assert FirstAfter(list, base) == i;
          ReserveAt(i, base, length);
          return;
        }
        i := i + 1;
      }
    }

    /** The edit around region i, the first one that ends after base. */
    method ReserveAt(i: nat, base: Word64, length: Word64)
      requires Room() && i < size && FirstAfter(List(), base) == i
      modifies slots, `size
      ensures size <= slots.Length && List() == Reserve(old(List()), old(slots[size + 1]), base, length)
    {
      hide End64, Wrap64, Trim, Cut, Reserve, FirstAfter, FirstReaching;
      ghost var list, spare := List(), slots[size + 1];
      ghost var later := list[i + 1..];
      Insert(i, base, length);
      var next := Wrap64(base + length);
      RemoveCovered(i, next);
      ghost var j := FirstReaching(later, next);
      if j < |later| {
        assert slots[i + 2] == slots[..size][i + 2] == later[j];
      }
      TrimSlot(i + 2, next);
      ReserveOutcome(list, spare, base, length, List());
    }
  }
}
