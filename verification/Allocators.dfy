/** The block allocator: headers at addresses, split, merge, malloc and free. */
module Allocators {
  import opened Machine
  import opened MemoryMaps

  /** The size of a header: two pointers, a flag with its padding, and a 64-bit size. */
  const HEADER := 20

  const NULL: Word := 0

  datatype Header = Header(prev: Word, next: Word, reserved: bool, size: Word64)

  type Headers = map<Word, Header>

  // ----- the operations as functions of the headers

  function Wrap32(i: int): Word {
    i % TWO_32
  }

  /** 0 when block a can be split behind `size` bytes, otherwise why not. */
  function SplitCode(h: Headers, a: Word, size: Word): nat
    requires a in h
  {
    if h[a].size < size then 1 else if h[a].size - size < HEADER then 2 else 0
  }

  /** Where the second block starts. */
  function SplitPoint(a: Word, size: Word): Word {
    Wrap32(a + HEADER + size)
  }

  function AfterSplit(h: Headers, a: Word, size: Word): Headers
    requires a in h && SplitCode(h, a, size) == 0
  {
    var b := SplitPoint(a, size);
    h[b := Header(a, h[a].next, false, Wrap32(h[a].size - size - HEADER))]
     [a := h[a].(next := b, reserved := true, size := size)]
  }

  /** 0 when two blocks can be merged, otherwise why not. */
  function MergeCode(h: Headers, first: Word, second: Word): nat
    requires first in h && second in h
  {
    if h[first].reserved || h[second].reserved then 1
    else if Wrap32(first + h[first].size + HEADER) != second then 2
    else 0
  }

  function AfterMerge(h: Headers, first: Word, second: Word): Headers
    requires first in h && second in h
  {
    if MergeCode(h, first, second) != 0 then h
    else h[first := h[first].(size := Wrap64(h[first].size + h[second].size + HEADER), next := h[second].next)]
  }

  function Released(h: Headers, a: Word): Headers
    requires a in h
  {
    h[a := h[a].(reserved := false)]
  }

  function AfterFree(h: Headers, a: Word): Headers
    requires a in h && h[a].next in h
  {
    AfterMerge(Released(h, a), a, h[a].next)
  }

  // ----- the allocator, which edits headers in place

  class Allocator {
    var headers: Headers
    var current: Word

    /** One free region. */
    constructor (start: Word, size: Word64)
      ensures headers == map[start := Header(NULL, NULL, false, size)] && current == start
    {
      headers := map[start := Header(NULL, NULL, false, size)];
      current := start;
    }

    method Split(a: Word, size: Word) returns (code: nat)
      requires a in headers && SplitPoint(a, size) != a
      modifies `headers
      ensures code == if old(headers)[a].size < size then 1 else if old(headers)[a].size < size + 20 then 2 else 0
      ensures headers == if code == 0 then AfterSplit(old(headers), a, size) else old(headers)
    {
      if headers[a].size < size {
        return 1;
      }
      if headers[a].size - size < HEADER {
        return 2;
      }
      var next := headers[a].next;
      var splitSize := Wrap32(headers[a].size - size - HEADER);
      var b := Wrap32(a + HEADER + size);
      headers := headers[a := headers[a].(next := b)];
      headers := headers[b := Header(a, next, false, splitSize)];
      headers := headers[a := headers[a].(reserved := true)];
      headers := headers[a := headers[a].(size := size)];
      return 0;
    }

    method Merge(first: Word, second: Word) returns (code: nat)
      requires first in headers && second in headers
      modifies `headers
      ensures var f, s := old(headers)[first], old(headers)[second];
              code == if f.reserved || s.reserved then 1
                      else if (first + f.size + 20) % TWO_32 != second then 2
                      else 0
      ensures headers == AfterMerge(old(headers), first, second)
    {
      if headers[first].reserved || headers[second].reserved {
        return 1;
      }
      if Wrap32(first + headers[first].size + HEADER) != second {
        return 2;
      }
      headers := headers[first := headers[first].(size := Wrap64(headers[first].size + headers[second].size + HEADER))];
      headers := headers[first := headers[first].(next := headers[second].next)];
      return 0;
    }

    /** The path of malloc on which the current block can be split; the size is cut to 32 bits. */
    method Malloc(size: Word64) returns (pointer: Word)
      requires current in headers && SplitCode(headers, current, Wrap32(size)) == 0
      requires SplitPoint(current, Wrap32(size)) != current
      modifies `headers, `current
      ensures headers == AfterSplit(old(headers), old(current), Wrap32(size))
      ensures current == (old(current) + 20 + size % TWO_32) % TWO_32 && pointer == (old(current) + 20) % TWO_32
    {
      var result := Split(current, Wrap32(size));
      current := headers[current].next;
      pointer := Wrap32(headers[current].prev + HEADER);
    }

    method Free(pointer: Word)
      requires var a := Wrap32(pointer - HEADER); a in headers && headers[a].next in headers
      modifies `headers
      ensures headers == AfterFree(old(headers), Wrap32(pointer - HEADER))
    {
      var block := Wrap32(pointer - HEADER);
      headers := headers[block := headers[block].(reserved := false)];
      var result := Merge(block, headers[block].next);
    }
  }
}
