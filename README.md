# Paged virtual memory simulator, in Dafny

This project models the core of a browser-based paged-virtual-memory simulator,
`app/page.js`. The user sets three sizes: the virtual space, the physical space and
the page size, all in KB. From them the simulator generates a page table. Every row
holds:

- a virtual page number written in binary;
- a physical frame number written in binary, or `''`;
- a present bit;
- an arrival order.

A FIFO queue of loaded pages sits beside the table. The user can then convert a
hexadecimal address in either direction:

- **Virtual to physical.** A page that is not loaded is faulted in first. At capacity
  this evicts the oldest loaded page and reuses its frame.
- **Physical to virtual.** The simulator looks up the loaded page that owns the frame.

Rows can also be swapped by drag and drop.

The model keeps the source's own representation. Row indexes stay binary strings and
every lookup goes through a model of JavaScript's `parseInt`. The modules follow the
program:

- `Wrappers`: `Option` and `Result`.
- `Radix`: the JavaScript primitives the source relies on.
  - `Number.prototype.toString(radix)`, `parseInt` (leading white space, sign, `0x`,
    the longest run of digits), `padStart` and `toUpperCase`.
  - The white space `parseInt` skips is the WhiteSpace and LineTerminator sets of
    ECMA-262 (sections 12.2 and 12.3), Unicode space separators included.
  - `Array.prototype.findIndex`.
- `Codec`: `toBinary`, `binaryToHex` and `hexToBinary`.
- `Geometry`: the sizes and the numbers derived from them (pages, frames, widths,
  address limits). `Layout` is the exact power-of-two form of those numbers.
- `PageTable`: rows, the table and the queue, the generator, the invariants of a FIFO
  table, and the row swap of drag and drop.
- `Replacement`: `handlePageReplacement` as a function on values, its properties, and
  runs of page accesses.
- `Translation`: `handleAddressConversion` as a function on values, and the round
  trips between the two directions.
- `Session`: the component's state as a class `Simulator` with the fields the handlers
  update. `pageTable` and `fifoQueue.current` are one `memory` field holding a
  `PageTable.Memory` value. A fault changes both. A drop (app/page.js:85) and a cell
  edit (app/page.js:164) change the table alone and keep the queue. The event handlers
  are imperative methods, each proved to agree with the value-level model:
  - `Generate`, `HandlePageReplacement` and `Convert`;
  - `SetSizes`, `DragStart` and `Drop`.

Integers are unbounded naturals. Sizes are exact powers of two, so `Math.log2` and
`Math.floor` become an integer `Log2`. Shifts and masks by `offsetBits` become division
and remainder by the page size in bytes.

## Model

| member | source | states |
|---|---|---|
| Codec.ToBinary | app/page.js:6 | The string is `bits` long, or the length of n's binary digits when that is longer. It never truncates. |
| Codec.ToBinaryValue | app/page.js:6 | toBinary writes only binary digits, and they read back as n. |
| Codec.ToBinaryWidth | app/page.js:6 | For widths of at least one bit: the string is exactly `bits` long iff n < 2^bits, and longer iff n >= 2^bits. Width 0 occurs with one frame, and there toBinary(0, 0) is "0", one character. |
| Codec.ParseToBinary | app/page.js:6 | parseInt(toBinary(n, bits), 2) gives n back. |
| Codec.CanonicalBinary | app/page.js:6 | Every binary numeral of width w is toBinary of its own value at width w. toBinary is onto the binary strings of each width. |
| Codec.ToStringOfLeadingOne | app/page.js:6 | A binary numeral with a leading 1 is exactly what toString(2) writes for its value. |
| Codec.BinaryToHex | app/page.js:21-25 | binaryToHex writes a hex numeral with one digit per group of four bits, ceil(\|s\|/4) digits, none of them a lower-case letter. |
| Codec.HexToBinary | app/page.js:27-28 | The result is at least `bits` long. Input that parseInt rejects gives "NaN" padded with zeros. A non-negative value gives a binary numeral of that value. |
| Codec.HexDigitOfChunk | app/page.js:24 | A group of at most four bits becomes one hex digit of the same value, and that digit is not a lower-case letter. |
| Codec.BinaryToHexValue | app/page.js:21-25 | On a whole number of nibbles, binaryToHex writes one hex digit per four bits, and the result has the value of the input. |
| Codec.NibbleAlignedHex | app/page.js:205-211 | Corrected grouping: pad to whole nibbles first. The result is a hex numeral with the binary's value and ceil(width/4) digits, with no lower-case letter. |
| Codec.HexRoundTrip | app/page.js:21-28 | hexToBinary(binaryToHex(s), \|s\|) == s for every binary string of a whole number of nibbles. |
| Codec.HexToBinaryOfHexString | app/page.js:27-28 | hexToBinary reads back the upper-case hex of n as toBinary(n, bits). |
| Codec.ParseHexNumeral | app/page.js:28 | A hex numeral parses in base 16 to its value. |
| Radix.ToString | app/page.js:6 | toString(radix) writes a numeral whose value is n. |
| Radix.ToStringLength | app/page.js:6 | toString writes the shortest numeral: n < radix^len, and radix^(len-1) <= n unless it is one digit. |
| Radix.PadStart | app/page.js:6 | padStart keeps the string as a suffix and fills the rest with the fill character. The length is max(width, \|s\|). |
| Radix.ToUpperCase | app/page.js:24 | toUpperCase leaves no lower-case letter, keeps every other character and the length, and keeps the value of every digit. |
| Radix.ValueUpperCase | app/page.js:24 | Upper-casing a numeral keeps its value. |
| Radix.ParseInt | app/page.js:174 | parseInt gives NaN on a string that is empty after the leading white space. A negative result needs a leading minus sign. The same parseInt reads the frame and page labels at lines 200 and 228. |
| Radix.ParseNumeral | app/page.js:36 | parseInt(s, radix) of a plain numeral is its value. |
| Radix.ParseHexLiteral | app/page.js:174 | parseInt("0x" + h, 16) is the value of the hex numeral h. This is how the displayed hexadecimal reads back. |
| Radix.DigitRun | app/page.js:174 | parseInt reads the longest prefix of digits and stops at the first non-digit. |
| Radix.FindIndex | app/page.js:35-38 | findIndex returns the first index satisfying the predicate, or none when no element satisfies it. |
| Geometry.Pow2Log2 | app/page.js:93 | Math.log2 is exact on powers of two: 2^log2(n) == n. |
| Geometry.Log2Pow | app/page.js:98-99 | log2(2^k) == k. |
| Geometry.GeometryFacts | app/page.js:91-95 | Under the guard with exact sizes: totalPages = 2·totalFrames >= 2, the widths are the logarithms of the counts, and the spaces in bytes are whole numbers of pages. |
| Geometry.LayoutMatches | app/page.js:91-95 | The exact layout of a configuration has that configuration's page and frame counts, page size in bytes, widths and address limits. |
| Geometry.LayoutSpaces | app/page.js:180 | The virtual space is totalPages pages and the physical space totalFrames pages. The physical space is strictly inside the virtual one. |
| PageTable.PresentCount | app/page.js:31 | The count of loaded rows is at most the number of rows. |
| PageTable.LoadedPagesCount | app/page.js:108 | filter(present).map(parseInt) has exactly as many entries as there are loaded rows. |
| PageTable.LoadedPagesMembers | app/page.js:108 | A page number is in filter(present).map(parseInt) iff some loaded row is labelled with it. |
| PageTable.PresentCountUpdate | app/page.js:31 | Replacing one row changes the count of loaded rows by exactly the change in that row's present bit. |
| PageTable.FrameNumber | app/page.js:200 | A physical index reads as a frame number with parseInt. `''` parses to NaN, which the shift turns into 0. |
| PageTable.FindVictim | app/page.js:35-38 | In a well-formed table, the victim search finds the victim's own row. |
| PageTable.LabelNumber | app/page.js:228 | parseInt(virtualIndex, 2) of a row of a well-formed table is that row's index. |
| PageTable.GenerateTable | app/page.js:89-112 | A table is produced iff the sizes pass the guard and are exact. Sizes failing the guard give the guard's error. |
| PageTable.GeneratedTable | app/page.js:97-108 | See the generated table row below. |
| PageTable.GeneratedLayout | app/page.js:108 | The loaded pages of the generated table, in table order, are 0..totalFrames-1. The present count is totalFrames. |
| PageTable.LoadedPagesOfFirstLoaded | app/page.js:108 | When the first k rows are the loaded ones, filter(present).map(parseInt) of any prefix of length n is [0, …, min(n,k)-1]. |
| PageTable.PresentCountOfFirstLoaded | app/page.js:31 | When the first k rows are the loaded ones, a prefix of length n has min(n,k) loaded rows. |
| PageTable.GeneratedIsConsistent | app/page.js:97-108 | A generated table and its queue satisfy the FIFO invariant. See the FIFO invariant row below. |
| PageTable.SwapRows | app/page.js:79-83 | The swap keeps the number of rows. |
| PageTable.SwapRowsInvolution | app/page.js:79-83 | Swapping twice restores the table. Swapping a row with itself changes nothing. |
| PageTable.SwapKeepsWellFormed | app/page.js:79-83 | A swap keeps every row's virtual index, so the table stays well formed. |
| PageTable.SwapKeepsConsistentIff | app/page.js:75-87 | A swap of two different rows keeps the FIFO invariant iff both rows have the same present bit. |
| Replacement.PageFault | app/page.js:30-60 | The physical index handed out is `''` or a binary numeral. |
| Replacement.ReuseOldest | app/page.js:33-46 | The index handed out at capacity is a binary numeral or `''`. Its full effect is stated by Replacement.FaultAtCapacity. |
| Replacement.TakeFreeFrame | app/page.js:47-50 | The index handed out below capacity is a binary numeral. Its full effect is stated by Replacement.FaultBelowCapacity. |
| Replacement.Access | app/page.js:193-196 | After an access, hit or fault, the table is well formed, the page is loaded, and the index returned is the page's own. |
| Replacement.VictimSlot | app/page.js:35-38 | The row found for the evicted page is that page's own row. |
| Replacement.FaultAtCapacity | app/page.js:33-46 | See the fault-at-capacity row below. |
| Replacement.FaultBelowCapacity | app/page.js:47-50 | Below capacity nothing is evicted. The new index is toBinary(presentCount, log2 totalFrames), and only the faulting row and the queue change. |
| Replacement.FaultInstalls | app/page.js:52-58 | After any fault the page is present with the index handed out and keeps its virtual index. Its arrival order is the queue length before the push, and the queue ends with it. |
| Replacement.FaultKeepsWellFormed | app/page.js:30-60 | A fault keeps the table well formed: same length, same labels, valid indexes, queue entries in range. |
| Replacement.FaultKeepsConsistent | app/page.js:30-60 | A fault on a page that is not loaded keeps the FIFO invariant. |
| Replacement.Run | app/page.js:190-196 | A run of accesses keeps the table well formed and its length. |
| Replacement.FifoEvictionOrder | app/page.js:33-34 | See the FIFO eviction order row below. |
| Replacement.AccessKeepsConsistent | app/page.js:190-196 | An access, hit or fault, keeps the FIFO invariant. |
| Replacement.RunKeepsConsistent | app/page.js:190-196 | Any run of accesses keeps the FIFO invariant. |
| Translation.JoinOfSplit | app/page.js:191-192 | address == (page << offsetBits) \| offset, with offset < 2^offsetBits. |
| Translation.SplitOfJoin | app/page.js:201 | Splitting (page << offsetBits) \| offset gives back the page and the offset. |
| Translation.HexLiteralReads | app/page.js:219 | "0x" + n.toString(16).toUpperCase() reads back as n. |
| Translation.Convert | app/page.js:173-235 | Either direction keeps the table well formed. An error leaves the table and the queue unchanged. The fault path's hexadecimal is chosen by a `FaultDisplay` argument: `AsWritten` is the program. |
| Translation.TranslateVirtual | app/page.js:190-219 | Virtual to physical on an in-range address always succeeds and keeps the table well formed. |
| Translation.TranslatePhysical | app/page.js:220-234 | Physical to virtual never changes the table or the queue. |
| Translation.NibbleHexAsWritten | app/page.js:205-211 | The fault path's hexadecimal as written: "0x" and ceil(width/4) hex digits, one per group of four bits cut from the left. It reads back as the value of those digits. |
| Translation.FaultHex | app/page.js:205-211 | Corrected grouping of the fault path's hexadecimal. It reads back as the physical address. |
| Translation.DisplayReadsBack | app/page.js:200-233 | On success the two binary strings read as the virtual and physical addresses. The hex shown reads as the converted address with the corrected grouping, and as written when the table is consistent and the physical width is a whole number of nibbles. |
| Translation.AsWrittenFaultHex | app/page.js:205-211 | As written, under the FIFO invariant and a physical width that is a multiple of four, the fault path's hexadecimal reads back as the physical address. |
| Translation.ConvertRejects | app/page.js:174-184 | See the rejection row below. |
| Translation.VirtualHit | app/page.js:214-219 | See the hit row below. |
| Translation.VirtualFault | app/page.js:194-212 | See the fault row below. |
| Translation.PhysicalLookup | app/page.js:220-234 | See the physical-to-virtual row below. |
| Translation.LoadedFrame | app/page.js:223 | Under the FIFO invariant, a loaded row's index reads as a frame number below totalFrames, and the row owns that frame. |
| Translation.OwnerIsUnique | app/page.js:223 | Under the FIFO invariant, at most one loaded row owns a frame. |
| Translation.LookupFindsOwner | app/page.js:223 | The physical-to-virtual search for a loaded row's frame finds that row. |
| Translation.VirtualLands | app/page.js:190-219 | Under the FIFO invariant, virtual to physical always succeeds, keeps the invariant and leaves the page loaded. The result is its frame at the same offset. |
| Translation.VirtualThenPhysical | app/page.js:190-234 | See the round-trip row below. |
| Translation.PhysicalThenVirtual | app/page.js:190-234 | A successful physical-to-virtual result translates back as a hit to the input address, with no change. |
| Translation.ConvertRoundTrip | app/page.js:173-235 | For every hex input in range, converting virtual to physical and then the displayed hex physical to virtual gives the input's address. This holds for the corrected display always, and for the program as written when the physical width is a multiple of four. |
| Translation.AsWrittenRoundTripFails | app/page.js:173-235 | As written, with sizes 16/8/4 KB: a fault that hands out physical address 0x1000 shows "0x8000", and converting that back is rejected as out of bounds. |
| Translation.RepeatIsHit | app/page.js:193-219 | Converting the same virtual address twice: the second time is a hit that changes nothing and gives the same physical address. |
| Translation.BeyondPhysicalSpace | app/page.js:180-184 | Under the FIFO invariant, a physical address past the physical space (but below the virtual bound) finds no owner. |
| Translation.NibbleHexAsWrittenMisreads | app/page.js:205-211 | With sizes 16/8/4 KB the fault path as written shows physical address 0x1000 as "0x8000", which reads as 32768. The corrected display shows "0x1000". |
| Translation.NibbleHexAsWrittenOnWholeNibbles | app/page.js:205-211 | When the physical width is a whole number of nibbles, the grouping as written and the corrected one agree on the whole physical space. |
| Translation.DefaultLayout | app/page.js:63-65 | The initial sizes 16, 8 and 4 KB are exact. They give 1 frame bit, 12 offset bits and 13-bit physical addresses. |
| Session.Simulator.constructor | app/page.js:63-69 | The component mounts with sizes 16, 8, 4 KB, an empty table, an empty queue and no drag. |
| Session.Simulator.SetSizes | app/page.js:63-65 | The size inputs change the sizes only. |
| Session.Simulator.Install | app/page.js:107-108 | setPageTable and the queue assignment: the state holds the given table and queue and the FIFO invariant, and the sizes and the drag are unchanged. |
| Session.Simulator.Generate | app/page.js:89-112 | On success the state is the generated table and queue, the layout is the sizes', and the FIFO invariant holds. On failure the error is reported and nothing changes. |
| Session.Simulator.HandlePageReplacement | app/page.js:30-60 | The in-place shift, findIndex, clear, load and push leave the state and outputs that PageFault describes. On a page that is not loaded the FIFO invariant is kept. |
| Session.Simulator.Convert | app/page.js:173-235 | The handler's result and new state are those of Translation.Convert with the hexadecimal as written, and it keeps the FIFO invariant. |
| Session.Simulator.DragStart | app/page.js:71-73 | Records the dragged row and changes nothing else. |
| Session.Simulator.Drop | app/page.js:75-87 | See the drop row below. |

Rows that do not fit on one line of the table:

- **Generated table** (`PageTable.GeneratedTable`):
  - the table has totalPages rows;
  - row i is labelled toBinary(i, log2 totalPages);
  - rows below totalFrames are present, with index toBinary(i, log2 totalFrames) and arrival order i;
  - the other rows are absent, with `''` and -1;
  - the queue is [0, …, totalFrames-1].
- **FIFO invariant** (`PageTable.GeneratedIsConsistent`):
  - the queue holds totalFrames distinct pages, exactly the present ones;
  - absent rows are cleared;
  - present rows hold distinct frames below totalFrames, with arrival orders in range.
- **Fault at capacity** (`Replacement.FaultAtCapacity`):
  - the head v of the queue is evicted and leaves the queue;
  - v's row is cleared to absent, `''` and -1;
  - the faulting page gets exactly v's old physical index;
  - no other row changes.
- **FIFO eviction order** (`Replacement.FifoEvictionOrder`): the run starts under the
  FIFO invariant, with k distinct pages that are not loaded.
  - the evictions are the first k pages of queue ++ pages, in order;
  - the final queue is the rest.
- **Rejection** (`Translation.ConvertRejects`):
  - the error is "invalid hex" iff parseInt gives NaN;
  - the error is "out of bounds" iff the value is < 0 or >= virtualSpace·1024;
  - "invalid physical address" arises only from physical to virtual;
  - no error changes the state.
- **Hit** (`Translation.VirtualHit`):
  - address == (page << offsetBits) | offset;
  - the result is (frame << offsetBits) | offset, with the same offset;
  - the table and the queue are unchanged and nothing is evicted.
- **Fault** (`Translation.VirtualFault`):
  - the new state is the fault's and the page is present;
  - the result is the frame handed out, at the same offset;
  - the eviction reported is the fault's.
- **Physical to virtual** (`Translation.PhysicalLookup`):
  - it succeeds iff some present row's index parses to the frame;
  - it then returns that row's page at the same offset;
  - it never changes the state.
- **Round trip** (`Translation.VirtualThenPhysical`):
  - the physical address virtual to physical gives lies inside the physical space;
  - translating it back gives the original address and page;
  - translating back changes nothing.
- **Drop** (`Session.Simulator.Drop`):
  - with no drag, or a drop on the same row, nothing changes;
  - a drag index past the end of the table (left from a larger table, since
    generating keeps the drag) throws before any write, so nothing changes;
  - otherwise the rows exchange everything but the virtual index and the drag ends;
  - the FIFO invariant survives iff both rows had the same present bit.

## Left out

- Rendering, `highlightBinary` (app/page.js:8-19), the table and input markup, toasts
  and `setHighlightedIndex`: presentation only. The error messages of the toasts
  become the `GenerateError` and `ConversionError` values.
- `showBinaryAddresses` (app/page.js:140-159): its result is computed and discarded.
- `validateForm` (app/page.js:114-137): only `showBinaryAddresses` calls it, and it
  relies on JavaScript string-to-number coercion.
- `handleChange` (app/page.js:161-165): manual edits of table cells break the link
  between the table and the queue by design.
- PageTable.GenerateTable: sizes that pass the source's guard but are not exact
  return `InexactSizes`, where the source goes on.
  - With whole counts that are not powers of two, such as 24, 12 and 4 KB (6 pages,
    3 frames), the source builds an ordinary table whose label and index widths are
    floor(log2 n) (app/page.js:94-99). Such labels can be longer than the width.
  - With a page size that does not divide the spaces, the counts are fractional.
    Floating point is not modelled.
- Session.Simulator.SetSizes: the class keeps the layout of the last generated table.
  Editing the sizes without generating again, and then converting, mixes old and new
  sizes in the source. Here every handler works with the generated table's layout.
- Session.Simulator.Convert: it requires a well-formed table, so converting before
  any table is generated is not modelled. The source then reads rows that do not
  exist.
- Replacement.PageFault: it requires a well-formed table and queue, whose queue head
  names a row. When no row's label matches the queue head, for instance when the
  queue is empty at capacity, findIndex gives -1 (app/page.js:35-38). Then
  `updatedTable[-1]` is undefined and reading its `physicalIndex` throws
  (app/page.js:39). That error path is not modelled.
- Translation.Convert: addresses are unbounded naturals. JavaScript's `>>`, `<<` and
  `&` work on 32-bit integers, and `parseInt` loses precision above 2^53. So for
  virtual spaces of 2^22 KB and more, where addresses reach 2^31, the source wraps
  where the model does not.
- Concurrency of React state updates is not modelled. Each handler is one atomic
  step on the state it reads.

Two behaviours of the code worth noting:

- The physical-to-virtual direction is bounded by the virtual space
  (app/page.js:180). Translation.BeyondPhysicalSpace shows that addresses past the
  physical space still fail, because no row owns those frames.
- `handleDrop` exchanges the present bit and the arrival order together with the
  physical index (app/page.js:81-83).

## Findings

`Translation.Convert` takes the display as an argument. The program as written is
`AsWritten`, which `Session.Simulator.Convert` uses. `Corrected` is the whole-nibble
grouping, for which the round trip holds on every layout.

| source | as written | input that shows it | evidently intended | confidence | as-written member | corrected member |
|---|---|---|---|---|---|---|
| app/page.js:205-211 | On a page fault the physical address is padded to log2(physicalSpace·1024) bits. The string is then cut into groups of four from the left, so a width that is not a multiple of four leaves a short last group. | Sizes 16, 8 and 4 KB give 13-bit physical addresses. Physical address 0x1000 reached through a fault is "1000000000000", grouped as 1000·0000·0000·0, and displayed as "0x8000", which is 32768. | The hexadecimal of the physical address, "0x1000", as the hit path shows it (app/page.js:219). | not executed | Translation.NibbleHexAsWrittenMisreads, Translation.AsWrittenRoundTripFails | Translation.FaultHex, Translation.ConvertRoundTrip |
