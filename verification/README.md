# Four kernel components of NeutrinoOS, modelled and proved in Dafny

The project models the parts of the kernel that carry real logic, and proves what each one does on all inputs.
`dafny verify dfyconfig.toml` checks everything.

**The formatted printer** (`Machine`, `Arithmetic`, `Numerals`, `IntField`, `Directives`, `Rendering`,
`Conversions`, `BoundedBuffer`, `Overruns`, `IntPrinter`, `Printer`, `LongOutputs`, `KernelPrint`). The format is parsed into items, every item is rendered
with its arguments, and the texts are concatenated; that is the specification. `Conversions` says what it means, told in
the characters of a directive and in its argument words alone. The single-pass state machine with
its lagging write cursor and its right-to-left number loop is a set of methods over an array that stands for all of
the 32-bit address space, numbered from the buffer on. `Printer.Vsnprintf` is proved to store exactly that text, cut to
the capacity and terminated, and, when the count of characters wraps around, exactly what the wrapped count and the
wrapped cursor make of it. Arguments are the
32-bit words of the argument area, in the layout of the kernel's own `stdarg.h`, so no argument list is excluded.
Widths, precisions, ranks and lengths are 32-bit ints and the count of characters is a 32-bit word; they wrap around
as they do in the unoptimised build (`Makefile:15`).
The printer follows the code where it departs from ISO/IEC 9899:2011, section 7.21.6.1: zero with precision zero
prints `0`, `#` on hexadecimal always adds a prefix, `0` is not cancelled by a precision, `+` and blank apply to
unsigned conversions, `'` inserts `_`, and every rank is cut to 32 bits.

**The framebuffer terminal** (`Geometry`, `Sheets`, `Screens`). Text is typed on an unbounded sheet that knows
nothing of scrolling. The screen object, with its bytes, its 32-bit cursor and its overlapping copy, always shows
the window of the sheet that ends with the cursor's line. `Screen.Valid` says so for every byte of every pixel.

**The memory map and the allocator** (`MemoryMaps`, `ReservedMaps`, `Allocators`, `AllocatorRuns`,
`AllocatorLists`). Reserving an area edits an array in place; its result is a function of the old list, and what
that function does to the bytes of a sorted map is proved byte by byte. The allocator edits headers in place; the
theorems are about every run of `malloc` and `free` from one free region.

**The timer-driven scheduler** (`Scheduling`, `TaskManagers`). The table of tasks is edited in place; the theorems
are about every run of the timer on a freshly filled table, and about every mixture of table operations.

## What the proofs found

- `%.*5s` with a negative precision argument makes the precision less than -1, and so does the literal precision of
  `%.4294967286s`, which wraps around; the string loop then counts down from below zero.
  `Rendering.StringDirectiveBreaks` says exactly which directives are affected; `Printer.Vsnprintf` asks for formats
  without them, and for arguments and fields whose lengths are ints (`Rendering.IntegerDirectiveFits`).
- `%2147483647s%2147483647s%3s` on empty strings is a format of valid directives that prints 2^32 + 1 characters
  (`LongOutputs.CountOverflows`). The count then wraps to zero with the cursor behind the buffer, the test for room
  holds again, and a blank goes into the cell behind any buffer that has a cell at all
  (`LongOutputs.OverflowWritesBehind`). `Overruns.StaysInsideIff` says exactly which outputs leave which buffers:
  without integer directives those of 2^32 characters and more, when the buffer has a cell
  (`LongOutputs.PlainLeavesIff`); with nothing but integer directives none, because their cursor wraps with the count
  (`LongOutputs.FieldsNeverLeave`); and a mixture may pass over the start of the buffer without harm
  (`LongOutputs.FieldCarriesCount`).
- `_reserve_area` is right only when the first region that ends after the base starts at or before it and a later
  region, or the slot behind the list, reaches the end of the area. Otherwise a length wraps around, or the removal loop removes the reserved
  region itself, or the outcome depends on the slot behind the list (`ReservedMaps.ReserveSucceedsIff`,
  `ReservedMaps.ReserveBelowFails`, `ReservedMaps.ReserveRemovesItself`). The part of the cut region behind the area is
  always lost, because the branch meant to keep it repeats the test before it (`kernel/src/system/memory.c:200-206`,
  `ReservedMaps.ReserveLosesTail`).
- `malloc` takes a 64-bit size and `split` a 32-bit one: a request of 2^32 + 8 bytes is granted with 8 of them
  (`AllocatorRuns.LargeRequest`). A live payload has the size asked for exactly when that fits in 32 bits
  (`AllocatorRuns.AskedPayloads`).
- Freed memory is never handed out again while `split` succeeds: the current block starts behind everything ever
  asked for (`AllocatorRuns.RunConsumes`). Giving back the pointer that the last `malloc` returned takes the current
  block off the list, for the rest of the run (`AllocatorLists.RunListedIff`); live payloads stay safe all the same.
- A backspace erases nothing: the space it types has a transparent background (`Sheets.BackspaceKeepsInk`).
- `add_task` makes the pid of the new task the slot to run next, so the timer calls through an empty slot unless the
  pid of the last task is a filled slot (`Scheduling.NoFaultIff`).
- Even then every complete run writes a task state through an empty slot, at the latest when it runs the last slot
  (`Scheduling.StrayWriteIff`, `Scheduling.StrayWriteHappens`).

## Model

| member | source | states |
|---|---|---|
| BoundedBuffer.Emit | kernel/src/stdio.c:77 | for every count and cursor, wrapped or not, one character is one step of the write discipline that the next rows are about |
| BoundedBuffer.CursorOnes | kernel/src/stdio.c:77 | as long as the text stays shorter than 2^32, its first n characters stand in the buffer and nothing else has changed, and while the count is within n the cursor is at start plus count |
| Overruns.StaysInsideIff | kernel/src/stdio.c:77-201 | for every sequence of single characters and integer fields and the final NUL, no cell outside the buffer changes, whatever memory holds, exactly when no put at a count o below n finds the cursor lagging by more than o and less than o plus its cells plus 2^32 - n, all modulo 2^32 |
| Overruns.Position | kernel/src/stdio.c:77-427 | after any puts the count and the cursor are the number of characters, and that number less those dropped one by one, modulo 2^32 |
| Overruns.ShortStaysInside | kernel/src/stdio.c:77 | fewer than 2^32 characters never leave the buffer |
| Overruns.SinglesOverrunIff | kernel/src/stdio.c:77 | single characters leave the buffer exactly when there are 2^32 or more of them and the buffer has a cell |
| Overruns.FieldsStayInside | kernel/src/stdio.c:423-427 | integer fields alone never leave the buffer, however many |
| Numerals.GroupedLength | kernel/src/stdio.c:129-130 | d digits in groups of k take d + (d-1)/k cells |
| Numerals.TickPositions | kernel/src/stdio.c:170-192 | for any digits and group size, `_` stands exactly at the distances p from the right with p mod (k+1) = k |
| IntField.TicksInBody | kernel/src/stdio.c:122-130 | with the tick flag a number starts with a digit and has its ticks exactly between groups of three, or four in base 16 |
| IntField.FieldLength | kernel/src/stdio.c:102-147 | a field is as long as its digits, ticks, sign and prefix together or as the width, whichever is more; the digits are the greatest of the precision, one, and the least number that holds the magnitude, or one more than that for `#` in octal |
| IntField.BodyShape | kernel/src/stdio.c:102-192 | a body consists of that many digits of its base, in lower or upper case as asked for, and of ticks, and reads as the magnitude |
| IntField.LayoutPieces | kernel/src/stdio.c:141-198 | every field is early blanks, sign, prefix, zeros, number and late blanks, in this order, and at most one of the three paddings is not empty |
| IntField.FieldRoundTrip | kernel/src/stdio.c:79-201 | for every word, base 8, 10 or 16, flags, width and precision, scanning the field (blanks, sign, 0x, digits with ticks) gives the signed or unsigned value back |
| IntField.FieldInjective | kernel/src/stdio.c:79-201 | equal fields in one base and signedness come from equal words, even when width, precision and other flags differ |
| IntPrinter.WriteNumber | kernel/src/stdio.c:170-192 | the right-to-left loop with its tick counter stores the grouped digits, cut to the capacity, and touches nothing else |
| IntPrinter.FormatInt | kernel/src/stdio.c:79-201 | for every field whose length is an int, returns that length and stores the field's first n characters at q, leaving every other cell as it was; no int in it overflows |
| Directives.ParseWrite | kernel/src/stdio.c:227-331 | parsing the text of well-formed items, with anything behind it, gives the items back and continues behind their text |
| Directives.WriteParse | kernel/src/stdio.c:227-331 | every format is the text of its well-formed items followed by nothing or by an unfinished directive, which prints nothing |
| Conversions.PreciseDirective | kernel/src/stdio.c:241-331 | a percent sign, characters of `-+' #0`, digits and stars, a point, digits and stars, characters of `hljztLq` and a conversion character are parsed into just these parts |
| Conversions.SimpleDirective | kernel/src/stdio.c:241-331 | the same without a precision |
| Rendering.CanonicalRoundTrip | kernel/src/stdio.c:241-331 | any flags, width, precision and rank, written as a directive, are recovered as ints, and so the width and the precision exactly when they are below 2^31; exactly the directive's text is used up |
| Conversions.IntegerDirectiveScans | kernel/src/stdio.c:333-428 | what any integer or pointer directive prints, with stars, repeated flags and any modifiers, scans back in base 8 for `o`, 10 for `d`, `i` and `u`, and 16 for `x`, `X`, `p` and `P` as its argument, cut to 8, 16 or 32 bits by the rank of its modifiers |
| Conversions.IntegerDirectiveText | kernel/src/stdio.c:79-428 | the whole text of such a directive: the sign by value and by `+` and blank, the prefix by `#` or pointer, case by `X` or `P`, the number of digits by the precision, ticks in groups of three or four, padding on the side `-` and `0` say; it takes one argument word, or two for the longest rank |
| Conversions.PointerText | kernel/src/stdio.c:335-345 | a pointer without `+`, blank and `'`, in a width of at most ten, is a prefix and exactly eight digits that read as its address |
| Conversions.RankMeaning | kernel/src/stdio.c:300-325 | the rank is what the last `j`, `z` or `t` sets, plus one for every `l`, two for every `L` or `q`, and minus one for every `h` behind it |
| Conversions.StoreDirective | kernel/src/stdio.c:473-507 | `%n` prints nothing and stores the count through its argument, congruent to it and in the range of its rank |
| Conversions.OtherText | kernel/src/stdio.c:509-511 | any other conversion character prints itself and takes no argument |
| Conversions.RenderConcat | kernel/src/stdio.c:227-513 | lists of items print one behind the other, the second with the arguments and the count the first leaves |
| Rendering.IntegerDirectiveFits | kernel/src/stdio.c:90-139 | the field of an integer directive is one the printer is proved for exactly when its digits, ticks, sign and prefix together are fewer than 2^31 |
| Rendering.CutMeaning | kernel/src/stdio.c:349-419 | cutting to a rank keeps an argument modulo the range of the rank and brings it into the signed or unsigned range |
| Rendering.SettingsMeaning | kernel/src/stdio.c:241-325 | a width is the absolute value of its last `*` argument followed by the digits behind it, and a precision likewise with -1 for a negative argument, both wrapped to int; `-` is set by a flag or by any negative width argument; every `*` takes one argument |
| Rendering.PrecisionBreaks | kernel/src/stdio.c:286-297 | the precision falls below -1 exactly when the number its last `*` and digits stand for wraps there; while that number is an int, exactly when the last `*` takes a negative argument and digits that are not all nines follow |
| Rendering.StringDirectiveBreaks | kernel/src/stdio.c:435-462 | with an argument shorter than 2^31, a string directive has no meaning exactly when the number of its precision wraps below -1, told from the directive and its arguments |
| Rendering.BrokenPrecisionExists | kernel/src/stdio.c:290-292 | `%.*5s` with argument -1 is such a directive |
| Rendering.LongPrecisionBreaks | kernel/src/stdio.c:287-288 | `%.4294967286s` is another, whatever its argument |
| Conversions.StringDirectiveText | kernel/src/stdio.c:429-471 | any `%s` or `%c` directive with a precision of at least -1 prints the string at its argument, `(null)` for a null pointer, or the low byte as a character, cut to the precision, at one side of a field as wide as the width asks, with only padding elsewhere |
| Printer.EmitString | kernel/src/stdio.c:441-471 | a string is cut to its precision and padded on the side the flags say, for a precision of at least -1 |
| Printer.ConvertArgument | kernel/src/stdio.c:327-512 | a terminal character puts the text of its conversion, an integer as one field and anything else character by character, takes the argument words of its rank, and records what `%n` stores at any count, unless the conversion has no meaning |
| Printer.Vsnprintf | kernel/src/stdio.c:203-523 | for every format of meaningful directives with argument and field lengths inside int, argument area and capacity, memory is what the puts of the parsed format and the final NUL make of it, and the result is the full length modulo 2^32 whatever n is; for renderings shorter than 2^32 that is the rendering cut to n - 1 characters and a NUL, all other cells unchanged; outside the buffer nothing changes unless the puts leave it; the loop ends although it reads characters again |
| Printer.PutsText | kernel/src/stdio.c:227-513 | the puts of any list of items are its rendering, cut into single characters and integer fields |
| LongOutputs.PlainLeavesIff | kernel/src/stdio.c:77-522 | a format without integer directives writes outside a buffer exactly when its output has 2^32 characters or more and the buffer has a cell |
| LongOutputs.FieldsNeverLeave | kernel/src/stdio.c:423-427 | a format of integer directives only never does |
| LongOutputs.CountOverflows | kernel/src/stdio.c:208 | `%2147483647s%2147483647s%3s` is valid and prints a run of 2^32 + 1 blanks for empty arguments |
| LongOutputs.OverflowWritesBehind | kernel/src/stdio.c:77 | with that format and any buffer of at least one cell, the cell behind the buffer ends as a blank |
| LongOutputs.FieldCarriesCount | kernel/src/stdio.c:423-522 | `%2147483647s%2147483647s%5d` prints 2^32 + 3 characters and leaves the buffer exactly when it has at least 4 cells and fewer than 2^32 - 5 |
| KernelPrint.Truncation | kernel/src/stdio.c:516-522 | a smaller capacity stores a prefix of what a larger one stores, then NUL, and changes nothing from the capacity on; the same holds of the strings in the buffers |
| KernelPrint.Puts | kernel/src/stdio.c:14-19 | the characters before the first NUL are typed on the screen as signed bytes |
| KernelPrint.AsciiBytes | kernel/src/stdio.c:9-19 | characters below 0x80 are typed as they are |
| KernelPrint.Printf | kernel/src/stdio.c:21-43 | for the same formats, when their puts stay in the buffer, at most 32767 characters of the rendering, up to a NUL, are typed on the screen, and the clamped count is returned; a count that is negative as an int prints nothing; no memory behind the buffer changes |
| KernelPrint.HexPair | kernel/src/system/memory.c:137-144 | `%x` of the high half followed by `%08x` of the low half reads back as the whole 64-bit value |
| KernelPrint.PrintPieces | kernel/src/system/memory.c:137-144 | a format of plain text, `%x`, `%08x`, `%d` and `%s` prints the concatenation of the pieces, each taking the next argument |
| KernelPrint.DescriptorListing | kernel/src/system/memory.c:137-144 | the kernel's own format for a region prints a base and a length that read back as the 64-bit numbers whose halves were passed, the type as a signed number, and the name |
| Geometry.OffsetsApart | kernel/src/drivers/vga.c:214 | different pixels have disjoint bytes |
| Geometry.OffsetInside | kernel/src/drivers/vga.c:214 | the bytes of a pixel on the screen lie inside the framebuffer |
| Geometry.PixelOfByte | kernel/src/drivers/vga.c:214 | every byte of the framebuffer is a channel of a pixel, so statements about all channels are about all bytes |
| Screens.Lerp | kernel/src/drivers/vga.c:208-211 | for any order-preserving roundings of quotient, product and sum that keep small integers, a blend lies between the old and the new value, alpha 255 gives the new one and alpha 0 the old one |
| Screens.LerpMonotone | kernel/src/drivers/vga.c:208-211 | however each of the three operations rounds, a greater alpha never moves a blend away from the new value |
| Screens.LerpExact | kernel/src/drivers/vga.c:208-211 | without rounding a blend is (a (255 - alpha) + b alpha) / 255 |
| Screens.ColorBytes | kernel/src/drivers/vga.c:214-218 | a colour is its blue, green, red and alpha bytes from the lowest to the highest |
| Screens.Screen.PutPixel | kernel/src/drivers/vga.c:213-219 | blends three channels of one pixel, for any such roundings, and changes no other channel of any pixel |
| Screens.Screen.DrawChar | kernel/src/drivers/vga.c:252-273 | turns a pixel to 255 exactly when the row of the font shifted by the column is odd, and leaves every other channel of every pixel as it was |
| Screens.Screen.ShiftUp | kernel/src/drivers/vga.c:233-249 | the overlapping forward copy moves every colour channel up by nine rows, zeroes the bottom nine, and ends exactly at the end of the buffer for three and four bytes a pixel |
| Screens.Screen.Scroll | kernel/src/drivers/vga.c:225-250 | when the cursor has left the last line the screen becomes the window one line further down the sheet |
| Screens.Screen.Backspace | kernel/src/drivers/vga.c:280-285 | with its recursive call the cursor nets to the column before, or column zero, in the same line, without wrapping, and the screen shows the same marks |
| Screens.Screen.PutChar | kernel/src/drivers/vga.c:275-326 | for every signed character the screen becomes the window of the sheet on which that character has been typed, in every channel of every pixel, with the cursor inside the text area |
| Screens.Screen.PutAll | kernel/src/drivers/vga.c:275-326 | the same for every text |
| Screens.Screen.constructor | kernel/src/drivers/vga.c:383-389 | whatever the framebuffer held, the screen then shows a blank sheet |
| Screens.ShowPlain | kernel/src/drivers/vga.c:225-326 | printable text put on a cleared framebuffer leaves 255 exactly in the colour channels of the glyph bits of the character whose cell the pixel lies in, after scrolling by max(0, n / cols - lines + 1) lines, and 0 in all others |
| Screens.Screen.FillRect | kernel/src/drivers/vga.c:339-360 | the incremental walk blends each pixel of the rectangle once, for any such roundings, and changes no other channel of any pixel |
| Sheets.PlainTextLayout | kernel/src/drivers/vga.c:310-322 | printable text on a blank sheet is laid out with character i in row i / cols and column i % cols, and nothing else is marked |
| Sheets.PlainTextPixels | kernel/src/drivers/vga.c:252-322 | for printable text on a blank sheet a pixel is lit exactly when its bit is set in the font row of the character whose cell it lies in |
| Sheets.BitIs | kernel/src/drivers/vga.c:264 | bit i of a font row is the parity of the row divided by 2^i |
| Sheets.LinesLayout | kernel/src/drivers/vga.c:275-326 | printable lines shorter than the screen is wide, with line feeds between them, are laid out with character i of line j in row j and column i and nothing else, and the cursor ends behind the last |
| Sheets.LineEnds | kernel/src/drivers/vga.c:294-305 | a line feed goes to column 0 of the next row, a carriage return to column 0 of the same row |
| Sheets.TabStop | kernel/src/drivers/vga.c:288-291 | a tab goes to the least multiple of eight above the column, or to the start of the next row at the edge |
| Sheets.OtherKeys | kernel/src/drivers/vga.c:280-322 | a printable character marks its place and moves on or wraps, a backspace moves back to column 0 at most, and other characters do nothing |
| Sheets.WindowIs | kernel/src/drivers/vga.c:225-231 | the window holds the cursor's row, as its last one unless it starts with the first row |
| Sheets.TypeBounded | kernel/src/drivers/vga.c:275-326 | typing keeps the cursor inside the line, moves down by at most one line, and leaves a new line unmarked |
| Sheets.MarksStay | kernel/src/drivers/vga.c:275-326 | typing on never removes a mark and never returns to an earlier line |
| Sheets.WindowDark | kernel/src/drivers/vga.c:225-273 | pixel rows between the lines, below the last line, and columns right of the last one stay dark in every window |
| Sheets.SpaceIsInvisible | kernel/src/drivers/vga.c:283 | a space adds no lit pixel anywhere |
| Sheets.BackspaceKeepsInk | kernel/src/drivers/vga.c:280-285 | a character and a backspace bring the cursor back but leave the character's ink |
| MemoryMaps.MemoryMap.ShiftMap | kernel/src/system/memory.c:147-154 | every region from the index on moves up by one slot, all other slots stay |
| MemoryMaps.MemoryMap.RemoveIndex | kernel/src/system/memory.c:156-164 | every region behind the index moves down by one slot, or only the last one goes |
| MemoryMaps.MemoryMap.ReserveArea | kernel/src/system/memory.c:166-218 | the in-place edit gives exactly the list of the specification, also where the search runs into the slot behind the list |
| ReservedMaps.ReserveSorted | kernel/src/system/memory.c:166-218 | a well-placed reservation, also one that succeeds by the slot behind the list, leaves the map sorted and disjoint, with a region of type 2 exactly on the area |
| ReservedMaps.ReserveBytes | kernel/src/system/memory.c:166-218 | for every reservation that succeeds, every byte of the area is of type 2 and nothing else; every other byte keeps exactly its types, except that the cut region loses what lies behind the area |
| ReservedMaps.UsableBytes | kernel/src/system/memory.c:187 | a byte is usable afterwards exactly when it was, lies outside the area, and is not in the cut region behind it; no usable byte is invented |
| ReservedMaps.BootArea | kernel/src/system/memory.c:91 | the area the kernel reserves at boot has no usable byte on the map of a small machine, though part of it is a hole in the map |
| ReservedMaps.ReserveReached | kernel/src/system/memory.c:176-214 | the edited list in full when a later region reaches the end of the area, also where the cut length wraps |
| ReservedMaps.ReserveUnreached | kernel/src/system/memory.c:189-198 | the edited list in full when none does: the later regions and the area itself go, unless the slot behind the list stops the loop |
| ReservedMaps.ReserveBehindAll | kernel/src/system/memory.c:168-173 | a base behind all regions leaves the map as it is |
| ReservedMaps.ReserveLosesNothing | kernel/src/system/memory.c:175-214 | for every reservation that succeeds, all bytes outside the area are kept exactly when the cut region ends by the end of the area |
| ReservedMaps.ReserveSucceedsIff | kernel/src/system/memory.c:166-218 | the result is sorted and holds the area exactly when the first region ending after the base starts at or before it and the end is reached by a later region, or by the slot behind the list when there is none |
| ReservedMaps.ReserveBelowFails | kernel/src/system/memory.c:176 | a base below the first region wraps a length and leaves an unsorted map |
| ReservedMaps.ReserveLosesTail | kernel/src/system/memory.c:200-213 | a reservation inside a region succeeds and takes a byte behind the area off the map |
| ReservedMaps.ReserveRemovesItself | kernel/src/system/memory.c:191-196 | an area that ends behind the last region is removed again together with that region, whatever the slot behind the list holds |
| Allocators.Allocator.Split | kernel/src/system/memory.c:224-240 | gives the result code and the headers of the specification, with the size of the rest cut to 32 bits |
| Allocators.Allocator.Merge | kernel/src/system/memory.c:246-255 | gives the result code and the headers of the specification, and changes nothing when it refuses |
| Allocators.Allocator.Malloc | kernel/src/system/memory.c:261-279 | splits the current block at the size cut to 32 bits, returns its payload, and makes the rest current |
| Allocators.Allocator.Free | kernel/src/system/memory.c:281-296 | releases the block and merges it with its successor when that is free |
| AllocatorRuns.RunSafe | kernel/src/system/memory.c:224-296 | every run of successful splits and frees of live pointers keeps the chain of blocks, an intact header for every live block, and the current block reaching exactly to the end |
| AllocatorRuns.LivePayloads | kernel/src/system/memory.c:261-296 | in every run the recorded payloads of live blocks are disjoint, overlap no header ever made, dead or live, and lie below the current block, whose header and size reach the end of the region |
| AllocatorRuns.AskedPayloads | kernel/src/system/memory.c:261-279 | in every run the bytes a caller asked for are the recorded ones, and lie below the current block, exactly when the request is below 2^32; such payloads overlap no header and not each other |
| AllocatorRuns.LargeRequest | kernel/src/system/memory.c:224-263 | a request of 2^32 + 8 bytes succeeds in a region of 100 bytes and gets 8 |
| AllocatorRuns.FreeDefined | kernel/src/system/memory.c:281-286 | after every run each live pointer can be freed: its own header and the next one it names exist |
| AllocatorRuns.RunConsumes | kernel/src/system/memory.c:261-296 | in every run the current block starts behind the sum of all requests and headers, whatever was freed |
| AllocatorRuns.DemandGrows | kernel/src/system/memory.c:224-240 | that sum grows by the size, cut to 32 bits, and twenty bytes with every malloc, and not with a free |
| AllocatorRuns.NextMalloc | kernel/src/system/memory.c:224-272 | after every run the next split succeeds exactly when the request and one more header still fit behind that sum, and the current block has no next one to search |
| AllocatorRuns.Execute | kernel/src/system/memory.c:261-296 | the allocator object carries out every run, and every live pointer was handed out |
| AllocatorLists.SplitTiles | kernel/src/system/memory.c:224-240 | splitting a listed block keeps headers and payloads tiling the region |
| AllocatorLists.MergeTiles | kernel/src/system/memory.c:246-255 | free neighbours on the list can always be merged, and the region stays tiled |
| AllocatorLists.SplitFreeInverse | kernel/src/system/memory.c:224-255 | freeing right after a split restores size, flag and links of the block, and no other header changes, exactly when the rest fits in 32 bits |
| AllocatorLists.MallocListed | kernel/src/system/memory.c:261-279 | malloc keeps a list that tiles the region, ends with the current block and passes every live block |
| AllocatorLists.FreeListedIff | kernel/src/system/memory.c:281-290 | free keeps such a list exactly when the freed block does not touch the current one |
| AllocatorLists.TouchesIff | kernel/src/system/memory.c:224-290 | in a safe state a live block touches the current one exactly when it is the newest block made before it |
| AllocatorLists.RunListedIff | kernel/src/system/memory.c:261-296 | a run keeps a list that tiles the region, leads to the current block and passes every live block exactly when none of its frees gives back the pointer that the last malloc before it returned, told from the operations alone |
| AllocatorLists.ListBreaks | kernel/src/system/memory.c:281-290 | one allocation and its free already lose the list |
| TaskManagers.TaskManager.AddTask | kernel/src/system/multithreading.c:52-74 | takes the first free slot of a table that is not full, readies the task, and leaves every other slot alone |
| TaskManagers.TaskManager.ClearManager | kernel/src/system/multithreading.c:136-152 | empties every slot and the count, but not the number of tasks left |
| TaskManagers.TaskManager.Schedule | kernel/src/system/multithreading.c:178-235 | runs the current slot, empties it, steps around the table, and writes the states of at most three tasks |
| TaskManagers.TaskManager.TimerHandler | kernel/src/drivers/timer.c:16-30 | every eighteenth tick runs a task if one is left |
| TaskManagers.Boot | kernel/src/drivers/timer.c:16-30 | the task manager object follows the state machine for any number of ticks, without a call through an empty slot |
| Scheduling.RunCounted | kernel/src/system/multithreading.c:52-79 | over all runs of adding, removing, clearing and ticking the task count is at least the number of occupied slots, so the search for a free slot ends inside the table |
| Scheduling.ClearedRun | kernel/src/system/multithreading.c:136-152 | after any run that ends with a clear no slot is occupied, the count is zero, the number of tasks left is as before, and the next task goes to slot 0 |
| Scheduling.AddedTask | kernel/src/system/multithreading.c:52-74 | a task goes into the first free slot, and its pid becomes the slot to run next; a full table stays as it is |
| Scheduling.TickedTable | kernel/src/system/multithreading.c:178-235 | in any table every eighteenth tick runs and empties the current slot while tasks are left, and the next one is the slot behind it modulo their number; other ticks only count |
| Scheduling.DispatchOrder | kernel/src/system/multithreading.c:178-235 | after t ticks exactly min(n, t/18) of n tasks have run, slot (first + i) mod n as number i, none twice, all of them in the end, none through an empty slot, and the number of tasks left is the number of occupied slots |
| Scheduling.LastFirst | kernel/src/system/multithreading.c:228-232 | with pids equal to slots the order is n-1, 0, 1, and so on |
| Scheduling.NoFaultIff | kernel/src/system/multithreading.c:69 | no tick calls through an empty slot exactly when the pid of the last task is a filled slot |
| Scheduling.StrayWriteIff | kernel/src/system/multithreading.c:214-232 | dispatch number k of a run in order writes a state through an empty slot exactly when it runs the last slot, or a slot other than 0 with k > 0 |
| Scheduling.StrayWriteHappens | kernel/src/system/multithreading.c:228-232 | every complete run in order comes to such a write |

## Left out

- Printer.Vsnprintf: does not model formats with a directive that `Rendering.StringDirectiveBreaks` describes, where the code reads memory that is no string, nor arguments and fields of 2^31 characters and more, where lengths wrap. Formats, arguments and options stay what they were while memory is written, so after a first write outside the buffer the code may do something else.
- KernelPrint.Printf: has the same limits as `Printer.Vsnprintf`, and asks for formats that stay in its buffer.
- IntPrinter.FormatInt: does not model fields of 2^31 characters and more, whose lengths wrap.
- Printer.EmitString: does not model a precision below -1, for which the loop reads behind the string.
- Printer.ConvertArgument: does not model a string conversion with such a precision.
- Overlap between the output buffer, the argument strings and the pointers of `%n`: stores through pointers are a record.
- Screens.Lerp: takes the roundings of the machine as parameters, and so does not give the very byte of a blend between the two ends.
- Screens.Screen.DrawChar: does not model the read behind the font table for character 128, which `vga_putc` never passes.
- Screens smaller than 16 by 9 pixels, and pixels of other than three or four bytes.
- The contents of the font: any table of 128 characters whose space is empty.
- Screens.Screen.FillRect: does not model rectangles that reach over an edge of the screen, where the walk continues in the next row.
- `vga_fillicon`, which blends green and red from the blue byte.
- `memory_init` for several regions, and the back links of blocks other than the one just split off.
- Allocators.Allocator.Split: does not model a size whose split point wraps around to the block itself.
- Allocators.Allocator.Malloc: does not model the search when the current block cannot be split; in a run from one region there is no next block (`AllocatorRuns.NextMalloc`), so that search reads through a null pointer and the call repeats itself.
- The bytes a caller writes into its payload, which the proofs keep away from every live header.
- What a task function does while it runs: running it appends its slot to a log.
- TaskManagers.TaskManager.Schedule: skips the state writes that `Scheduling.StrayWriteIff` finds, through empty slots and, with 256 tasks, through the task count behind the table; a call through an empty slot is excluded.
- `add_task` starts its search at slot 0, and new tables are empty: the code leaves both uninitialised.
- Overflow of the tick counter: it is unbounded here.
- Finding a task by pid, the stack container, string and character helpers, keyboard, ATA, ports and interrupts: they would only add easy members or hardware sequencing.
