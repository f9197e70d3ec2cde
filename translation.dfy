/** Address translation (handleAddressConversion): a hexadecimal address is parsed,
    bounded by the virtual space, split into page and offset, and translated from
    virtual to physical (faulting the page in when it is not loaded) or from physical
    to virtual (looking up the loaded page that owns the frame). */
module Translation {
  import opened Wrappers
  import opened Radix
  import opened Codec
  import opened Geometry
  import opened PageTable
  import opened Replacement

  datatype Direction = VirtualToPhysical | PhysicalToVirtual

  datatype ConversionError =
    | InvalidHexAddress       // parseInt(input, 16) is NaN
    | AddressOutOfBounds      // below 0, or at least virtualSpace * 1024
    | InvalidPhysicalAddress  // no loaded page holds the frame

  /** What a successful conversion shows: the virtual page highlighted, the converted
      address, both addresses in binary, the converted address in hexadecimal, and the
      page evicted by the fault it caused, if any. */
  datatype Conversion = Conversion(
    page: nat, address: nat, virtualBinary: string, physicalBinary: string, hex: string, evicted: Option<nat>)

  /** Which hexadecimal the fault path shows: the source's grouping from the left
      (NibbleHexAsWritten), or the corrected grouping in whole nibbles (FaultHex). */
  datatype FaultDisplay = AsWritten | Corrected

  /** The outcome of a conversion and the state it leaves. */
  datatype Converted = Converted(result: Result<Conversion, ConversionError>, memory: Memory)

  /** address >> offsetBits */
  function PageNumber(l: Layout, a: nat): nat
  {
    a / l.PageBytes()
  }

  /** address & ((1 << offsetBits) - 1) */
  function Offset(l: Layout, a: nat): nat
  {
    a % l.PageBytes()
  }

  /** (page << offsetBits) | offset, for an offset below the page size. */
  function Join(l: Layout, page: nat, offset: nat): nat
  {
    page * l.PageBytes() + offset
  }

  /** Splitting an address and joining the parts gives it back. */
  lemma JoinOfSplit(l: Layout, a: nat)
    ensures Offset(l, a) < l.PageBytes()
    ensures Join(l, PageNumber(l, a), Offset(l, a)) == a
  {
  }

  /** Joining a page and an offset and splitting the result gives them back. */
  lemma SplitOfJoin(l: Layout, page: nat, offset: nat)
    requires offset < l.PageBytes()
    ensures PageNumber(l, Join(l, page, offset)) == page && Offset(l, Join(l, page, offset)) == offset
  {
    DivModUnique(Join(l, page, offset), l.PageBytes(), page, offset);
  }

  /** The conversion display of the virtual-to-physical direction. */
  function ShowVirtual(l: Layout, a: nat, page: nat, pa: nat, hex: string, evicted: Option<nat>): Conversion
  {
    Conversion(page, pa, ToBinary(a, l.VirtualBits()), ToBinary(pa, l.PhysicalBits()), hex, evicted)
  }

  /** "0x" + n.toString(16).toUpperCase() */
  function HexLiteral(n: nat): string
  {
    "0x" + ToUpperCase(ToString(n, 16))
  }

  /** The fault path's hexadecimal: the physical address in binary, padded to the
      physical address width, then grouped into whole nibbles. The grouping the
      source writes is in NibbleHexAsWritten. It reads back as the physical address. */
  function FaultHex(bits: nat, pa: nat): (h: string)
    ensures ParseInt(h, 16) == Some(pa)
  {
    ToBinaryValue(pa, bits);
    var digits := NibbleAlignedHex(ToBinary(pa, bits));
    ParseHexLiteral(digits);
    "0x" + digits
  }

  /** The hexadecimal shown after a fault, as written or corrected. */
  function ShownFaultHex(d: FaultDisplay, bits: nat, pa: nat): string
  {
    match d
    case AsWritten => NibbleHexAsWritten(bits, pa)
    case Corrected => FaultHex(bits, pa)
  }

  /** The virtual-to-physical branch for an address inside the virtual space: a loaded
      page is read off its row, any other page is faulted in first. */
  function TranslateVirtual(m: Memory, l: Layout, a: nat, d: FaultDisplay): (r: Converted)
    requires WellFormed(m, l) && a < l.AddressLimit()
    ensures r.result.Ok? && WellFormed(r.memory, l)
  {
    LayoutSpaces(l);
    PageOfAddress(a, l.PageBytes(), l.Pages());
    var page := PageNumber(l, a);
    var entry := m.table[page];
    if !entry.present then
      var f := PageFault(m, page, l);
      FaultKeepsWellFormed(m, l, page);
      var pa := Join(l, FrameNumber(f.physicalIndex), Offset(l, a));
      Converted(Ok(ShowVirtual(l, a, page, pa, ShownFaultHex(d, l.PhysicalBits(), pa), f.evicted)), f.memory)
    else
      var pa := Join(l, FrameNumber(entry.physicalIndex), Offset(l, a));
      Converted(Ok(ShowVirtual(l, a, page, pa, HexLiteral(pa), None)), m)
  }

  /** The physical-to-virtual branch: the first loaded row whose physical index reads
      as the frame number gives the virtual page; with none, the address is invalid. */
  function TranslatePhysical(m: Memory, l: Layout, a: nat): (r: Converted)
    requires WellFormed(m, l)
    ensures r.memory == m
  {
    match FindIndex(m.table, OwnsFrame(PageNumber(l, a)))
    case None => Converted(Err(InvalidPhysicalAddress), m)
    case Some(i) =>
      var page := LabelNumber(m, l, i);
      var va := Join(l, page, Offset(l, a));
      Converted(Ok(Conversion(page, va, ToBinary(va, l.VirtualBits()), ToBinary(a, l.PhysicalBits()), HexLiteral(va), None)), m)
  }

  /** handleAddressConversion: parse the input as hexadecimal, reject NaN and addresses
      outside [0, virtualSpace * 1024) in either direction, then translate. */
  function Convert(m: Memory, l: Layout, dir: Direction, input: string, d: FaultDisplay): (r: Converted)
    requires WellFormed(m, l)
    ensures WellFormed(r.memory, l)
    ensures r.result.Err? ==> r.memory == m
  {
    match ParseInt(input, 16)
    case None => Converted(Err(InvalidHexAddress), m)
    case Some(a) =>
      if a < 0 || a >= l.AddressLimit() then Converted(Err(AddressOutOfBounds), m)
      else if dir == VirtualToPhysical then TranslateVirtual(m, l, a, d)
      else TranslatePhysical(m, l, a)
  }

  lemma HexLiteralReads(n: nat)
    ensures ParseInt(HexLiteral(n), 16) == Some(n)
  {
    ValueUpperCase(ToString(n, 16), 16);
    ParseHexLiteral(ToUpperCase(ToString(n, 16)));
  }

  /** The physical address width is a whole number of nibbles, so that the grouping
      from the left lines up with the hexadecimal digits. */
  predicate WholeNibbles(l: Layout)
  {
    l.PhysicalBits() >= 1 && l.PhysicalBits() % 4 == 0
  }

  /** A conversion's display agrees with its numbers: the binary strings read back as
      the input and the converted address. The hexadecimal reads back as the converted
      address with the corrected fault display, and with the one as written when the
      physical width is a whole number of nibbles and the state is consistent. */
  lemma DisplayReadsBack(m: Memory, l: Layout, dir: Direction, input: string, d: FaultDisplay)
    requires WellFormed(m, l)
    ensures var r := Convert(m, l, dir, input, d);
      r.result.Ok? ==>
        var c := r.result.value;
        var a := ParseInt(input, 16).value;
        && (d == Corrected || (Consistent(m, l) && WholeNibbles(l)) ==> ParseInt(c.hex, 16) == Some(c.address))
        && ParseInt(c.virtualBinary, 2) == Some(if dir == VirtualToPhysical then a else c.address)
        && ParseInt(c.physicalBinary, 2) == Some(if dir == VirtualToPhysical then c.address else a)
  {
    var r := Convert(m, l, dir, input, d);
    if r.result.Ok? {
      var a := ParseInt(input, 16).value;
      if dir == VirtualToPhysical {
        VirtualDisplay(m, l, a, d);
      } else {
        PhysicalDisplay(m, l, a);
      }
    }
  }

  lemma VirtualDisplay(m: Memory, l: Layout, a: nat, d: FaultDisplay)
    requires WellFormed(m, l) && a < l.AddressLimit()
    ensures var c := TranslateVirtual(m, l, a, d).result.value;
      && (d == Corrected || (Consistent(m, l) && WholeNibbles(l)) ==> ParseInt(c.hex, 16) == Some(c.address))
      && ParseInt(c.virtualBinary, 2) == Some(a)
      && ParseInt(c.physicalBinary, 2) == Some(c.address)
  {
    var c := TranslateVirtual(m, l, a, d).result.value;
    ParseToBinary(a, l.VirtualBits());
    ParseToBinary(c.address, l.PhysicalBits());
    LayoutSpaces(l);
    PageOfAddress(a, l.PageBytes(), l.Pages());
    if m.table[PageNumber(l, a)].present {
      HexLiteralReads(c.address);
    } else if d == AsWritten && Consistent(m, l) && WholeNibbles(l) {
      AsWrittenFaultHex(m, l, a);
    }
  }

  /** On a whole number of nibbles the fault path as written shows the same hexadecimal
      as the corrected one, since a consistent state hands out frames inside the
      physical space. */
  lemma AsWrittenFaultHex(m: Memory, l: Layout, a: nat)
    requires Consistent(m, l) && WholeNibbles(l) && a < l.AddressLimit()
    ensures var c := TranslateVirtual(m, l, a, AsWritten).result.value;
      ParseInt(c.hex, 16) == Some(c.address)
  {
    var pa := TranslateVirtual(m, l, a, AsWritten).result.value.address;
    VirtualInside(m, l, a, AsWritten);
    FaultShowsFaultHex(m, l, a, AsWritten);
    if m.table[PageNumber(l, a)].present {
      HexLiteralReads(pa);
    } else {
      PhysicalWidth(l);
      NibbleHexAsWrittenOnWholeNibbles(l.PhysicalBits(), pa);
    }
  }

  /** The physical space is 2^physicalBits bytes. */
  lemma PhysicalWidth(l: Layout)
    ensures l.PhysicalLimit() == Pow(2, l.PhysicalBits())
  {
  }

  /** A virtual-to-physical result of a consistent state lies inside the physical space. */
  lemma VirtualInside(m: Memory, l: Layout, a: nat, d: FaultDisplay)
    requires Consistent(m, l) && a < l.AddressLimit()
    ensures TranslateVirtual(m, l, a, d).result.value.address < l.PhysicalLimit()
  {
    VirtualThenPhysical(m, l, a, d);
  }

  lemma PhysicalDisplay(m: Memory, l: Layout, a: nat)
    requires WellFormed(m, l)
    ensures var r := TranslatePhysical(m, l, a);
      r.result.Ok? ==>
        var c := r.result.value;
        && ParseInt(c.hex, 16) == Some(c.address)
        && ParseInt(c.virtualBinary, 2) == Some(c.address)
        && ParseInt(c.physicalBinary, 2) == Some(a)
  {
    var r := TranslatePhysical(m, l, a);
    if r.result.Ok? {
      var c := r.result.value;
      ParseToBinary(a, l.PhysicalBits());
      ParseToBinary(c.address, l.VirtualBits());
      HexLiteralReads(c.address);
    }
  }

  /** Unparsable input and addresses outside the virtual space are rejected, and no
      failed conversion changes the state; only the physical-to-virtual direction can
      find no owner. */
  lemma ConvertRejects(m: Memory, l: Layout, dir: Direction, input: string, d: FaultDisplay)
    requires WellFormed(m, l)
    ensures var r := Convert(m, l, dir, input, d);
      && (r.result == Err(InvalidHexAddress) <==> ParseInt(input, 16).None?)
      && (r.result == Err(AddressOutOfBounds) <==>
            ParseInt(input, 16).Some? && (ParseInt(input, 16).value < 0 || ParseInt(input, 16).value >= l.AddressLimit()))
      && (r.result == Err(InvalidPhysicalAddress) ==> dir == PhysicalToVirtual)
      && (r.result.Err? ==> r.memory == m)
  {
  }

  /** On a loaded page, virtual-to-physical changes nothing and keeps the offset: the
      input is page << offsetBits | offset, and the result is the page's frame number
      << offsetBits | offset. */
  lemma VirtualHit(m: Memory, l: Layout, a: nat, d: FaultDisplay)
    requires WellFormed(m, l) && a < l.AddressLimit() && PageNumber(l, a) < |m.table|
    requires m.table[PageNumber(l, a)].present
    ensures var r := TranslateVirtual(m, l, a, d); var page := PageNumber(l, a);
      && r.memory == m && r.result.Ok? && r.result.value.evicted == None
      && r.result.value.page == page
      && a == Join(l, page, Offset(l, a)) && Offset(l, a) < l.PageBytes()
      && r.result.value.address == Join(l, FrameNumber(m.table[page].physicalIndex), Offset(l, a))
  {
    JoinOfSplit(l, a);
  }

  /** On a page that is not loaded, virtual-to-physical faults it in first: the new
      state is the fault's, the page is now loaded, and the result is the frame the
      fault handed out, at the same offset. */
  lemma VirtualFault(m: Memory, l: Layout, a: nat, d: FaultDisplay)
    requires WellFormed(m, l) && a < l.AddressLimit() && PageNumber(l, a) < |m.table|
    requires !m.table[PageNumber(l, a)].present
    ensures var r := TranslateVirtual(m, l, a, d); var page := PageNumber(l, a); var f := PageFault(m, page, l);
      && r.memory == f.memory && r.result.Ok? && r.result.value.evicted == f.evicted
      && r.result.value.page == page
      && page < |r.memory.table| && r.memory.table[page].present
      && r.result.value.address == Join(l, FrameNumber(f.physicalIndex), Offset(l, a))
  {
    FaultInstalls(m, l, PageNumber(l, a));
  }

  /** Physical-to-virtual never changes the state, and succeeds exactly when some loaded
      row's physical index reads as the frame number; then the result is that row's
      page at the same offset. */
  lemma PhysicalLookup(m: Memory, l: Layout, a: nat)
    requires WellFormed(m, l)
    ensures var r := TranslatePhysical(m, l, a); var frame := PageNumber(l, a);
      && r.memory == m
      && (r.result.Ok? <==> exists i :: 0 <= i < |m.table| && OwnsFrame(frame)(m.table[i]))
      && (r.result.Ok? ==>
            var c := r.result.value;
            && c.page < |m.table| && OwnsFrame(frame)(m.table[c.page])
            && c.address == Join(l, c.page, Offset(l, a)))
  {
  }

  /** In a consistent state a loaded row's physical index is a frame number below
      totalFrames, and the row owns that frame. */
  lemma LoadedFrame(m: Memory, l: Layout, v: nat)
    requires Consistent(m, l) && v < |m.table| && m.table[v].present
    ensures FrameNumber(m.table[v].physicalIndex) == Value(m.table[v].physicalIndex, 2) < l.Frames()
    ensures OwnsFrame(FrameNumber(m.table[v].physicalIndex))(m.table[v])
  {
    ParseNumeral(m.table[v].physicalIndex, 2);
  }

  /** In a consistent state no two loaded rows own the same frame. */
  lemma OwnerIsUnique(m: Memory, l: Layout, f: nat, i: nat, j: nat)
    requires Consistent(m, l) && i < |m.table| && j < |m.table|
    requires OwnsFrame(f)(m.table[i]) && OwnsFrame(f)(m.table[j])
    ensures i == j
  {
    ParseNumeral(m.table[i].physicalIndex, 2);
    ParseNumeral(m.table[j].physicalIndex, 2);
  }

  /** The physical-to-virtual lookup of a frame owned by a loaded row finds that row. */
  lemma LookupFindsOwner(m: Memory, l: Layout, v: nat)
    requires Consistent(m, l) && v < |m.table| && m.table[v].present
    ensures FindIndex(m.table, OwnsFrame(FrameNumber(m.table[v].physicalIndex))) == Some(v)
  {
    var f := FrameNumber(m.table[v].physicalIndex);
    LoadedFrame(m, l, v);
    var r := FindIndex(m.table, OwnsFrame(f));
    OwnerIsUnique(m, l, f, r.value, v);
  }

  /** Where a virtual address lands: its page, loaded in the resulting state, and the
      frame that page holds there, at the same offset. */
  lemma VirtualLands(m: Memory, l: Layout, a: nat, d: FaultDisplay)
    requires Consistent(m, l) && a < l.AddressLimit()
    ensures var v := TranslateVirtual(m, l, a, d); var page := PageNumber(l, a);
      && Consistent(v.memory, l) && v.result.Ok?
      && page < |v.memory.table| && v.memory.table[page].present
      && v.result.value.page == page
      && v.result.value.address == Join(l, FrameNumber(v.memory.table[page].physicalIndex), Offset(l, a))
  {
    LayoutSpaces(l);
    PageOfAddress(a, l.PageBytes(), l.Pages());
    var page := PageNumber(l, a);
    if m.table[page].present {
      VirtualHit(m, l, a, d);
    } else {
      VirtualFault(m, l, a, d);
      FaultKeepsConsistent(m, l, page);
      FaultInstalls(m, l, page);
    }
  }

  /** Round trip: translating a virtual address to physical and the result back to
      virtual gives the address back, changes nothing more, and the physical address
      lies inside the physical space. */
  lemma VirtualThenPhysical(m: Memory, l: Layout, a: nat, d: FaultDisplay)
    requires Consistent(m, l) && a < l.AddressLimit()
    ensures var v := TranslateVirtual(m, l, a, d);
      && Consistent(v.memory, l) && v.result.Ok?
      && var pa := v.result.value.address; var back := TranslatePhysical(v.memory, l, pa);
      && pa < l.PhysicalLimit()
      && back.memory == v.memory && back.result.Ok?
      && back.result.value.address == a && back.result.value.page == v.result.value.page
  {
    VirtualLands(m, l, a, d);
    var v := TranslateVirtual(m, l, a, d);
    var page := PageNumber(l, a);
    var f := FrameNumber(v.memory.table[page].physicalIndex);
    LoadedFrame(v.memory, l, page);
    LayoutSpaces(l);
    JoinOfSplit(l, a);
    AddressOfPage(f, Offset(l, a), l.PageBytes(), l.Frames());
    SplitOfJoin(l, f, Offset(l, a));
    LookupFindsOwner(v.memory, l, page);
  }

  /** Round trip the other way: a physical address that translates to virtual
      translates back to itself, as a hit that changes nothing. */
  lemma PhysicalThenVirtual(m: Memory, l: Layout, a: nat, d: FaultDisplay)
    requires Consistent(m, l) && TranslatePhysical(m, l, a).result.Ok?
    ensures var va := TranslatePhysical(m, l, a).result.value.address;
      && va < l.AddressLimit()
      && TranslateVirtual(m, l, va, d).memory == m
      && TranslateVirtual(m, l, va, d).result.Ok?
      && TranslateVirtual(m, l, va, d).result.value.address == a
  {
    var c := TranslatePhysical(m, l, a).result.value;
    PhysicalLookup(m, l, a);
    LayoutSpaces(l);
    JoinOfSplit(l, a);
    AddressOfPage(c.page, Offset(l, a), l.PageBytes(), l.Pages());
    SplitOfJoin(l, c.page, Offset(l, a));
    LoadedFrame(m, l, c.page);
    ParseNumeral(m.table[c.page].physicalIndex, 2);
    VirtualHit(m, l, c.address, d);
  }

  /** The same round trip through the user's hexadecimal strings: converting an input
      virtual to physical, then converting the hexadecimal shown physical to virtual,
      gives the input's address. It holds with the corrected fault display, and with
      the one as written only when the physical width is a whole number of nibbles
      (AsWrittenRoundTripFails). */
  lemma ConvertRoundTrip(m: Memory, l: Layout, input: string, d: FaultDisplay)
    requires Consistent(m, l) && (d == Corrected || WholeNibbles(l))
    requires ParseInt(input, 16).Some? && 0 <= ParseInt(input, 16).value < l.AddressLimit()
    ensures var r := Convert(m, l, VirtualToPhysical, input, d);
      && r.result.Ok? && Consistent(r.memory, l)
      && var back := Convert(r.memory, l, PhysicalToVirtual, r.result.value.hex, d);
      && back.memory == r.memory && back.result.Ok?
      && back.result.value.address == ParseInt(input, 16).value
  {
    var a: nat := ParseInt(input, 16).value;
    ConvertParsed(m, l, VirtualToPhysical, input, d, a);
    var v := TranslateVirtual(m, l, a, d);
    VirtualThenPhysical(m, l, a, d);
    VirtualDisplay(m, l, a, d);
    LayoutSpaces(l);
    ConvertParsed(v.memory, l, PhysicalToVirtual, v.result.value.hex, d, v.result.value.address);
  }

  /** An input that parses to an address inside the virtual space is translated. */
  lemma ConvertParsed(m: Memory, l: Layout, dir: Direction, input: string, d: FaultDisplay, a: int)
    requires WellFormed(m, l) && ParseInt(input, 16) == Some(a) && 0 <= a < l.AddressLimit()
    ensures Convert(m, l, dir, input, d) ==
      if dir == VirtualToPhysical then TranslateVirtual(m, l, a, d) else TranslatePhysical(m, l, a)
  {
  }

  /** Translating the same virtual address again is a hit: same result, no change. */
  lemma RepeatIsHit(m: Memory, l: Layout, a: nat, d: FaultDisplay)
    requires Consistent(m, l) && a < l.AddressLimit()
    ensures var v := TranslateVirtual(m, l, a, d);
      && Consistent(v.memory, l) && v.result.Ok?
      && var w := TranslateVirtual(v.memory, l, a, d);
      && w.memory == v.memory && w.result.Ok? && w.result.value.evicted == None
      && w.result.value.address == v.result.value.address
  {
    VirtualLands(m, l, a, d);
    var v := TranslateVirtual(m, l, a, d);
    VirtualHit(v.memory, l, a, d);
  }

  /** Addresses are bounded by the virtual space in both directions; in a consistent
      state a physical-to-virtual request beyond the physical space finds no owner. */
  lemma BeyondPhysicalSpace(m: Memory, l: Layout, a: nat)
    requires Consistent(m, l) && l.PhysicalLimit() <= a
    ensures TranslatePhysical(m, l, a).result == Err(InvalidPhysicalAddress)
  {
    LayoutSpaces(l);
    var frame := PageNumber(l, a);
    if frame < l.Frames() {
      JoinOfSplit(l, a);
      AddressOfPage(frame, Offset(l, a), l.PageBytes(), l.Frames());
    }
    var r := FindIndex(m.table, OwnsFrame(frame));
    if r.Some? {
      LoadedFrame(m, l, r.value);
    }
  }

  /** The fault path's hexadecimal as written: the padded binary is cut into groups of
      four from the left, so when the width is not a multiple of four the last group
      is short and every group is off by the missing bits. */
  function NibbleHexAsWritten(bits: nat, pa: nat): (h: string)
    ensures |h| == 2 + (|ToBinary(pa, bits)| + 3) / 4 && h[..2] == "0x" && IsNumeral(h[2..], 16)
    ensures ParseInt(h, 16) == Some(Value(h[2..], 16))
  {
    ToBinaryValue(pa, bits);
    var digits := BinaryToHex(ToBinary(pa, bits));
    ParseHexLiteral(digits);
    assert ("0x" + digits)[2..] == digits;
    "0x" + digits
  }

  /** With sizes 16, 8 and 4 KB the physical address has 13 bits (DefaultLayout), and
      the grouping as written shows physical address 0x1000 as 0x8000, which reads as
      32768; the corrected grouping shows 0x1000. */
  lemma NibbleHexAsWrittenMisreads()
    ensures NibbleHexAsWritten(13, 4096) == "0x8000"
    ensures ParseInt("0x8000", 16) == Some(32768)
    ensures FaultHex(13, 4096) == "0x1000"
  {
    AsWrittenShows8000();
    ReadsAs32768();
    CorrectedShows1000();
  }

  /** As written, the round trip through the displayed hexadecimal fails at the
      default sizes (DefaultLayout): a fault that hands out physical address 0x1000
      (reached by converting 0x2000 and then 0x3000 right after generating) shows
      "0x8000", and converting that back is rejected as out of bounds, since 32768 is
      past the 16 KB virtual space. */
  lemma AsWrittenRoundTripFails(m: Memory, l: Layout, input: string)
    requires l.frameBits == 1 && l.offsetBits == 12 && WellFormed(m, l)
    requires var r := Convert(m, l, VirtualToPhysical, input, AsWritten);
      r.result.Ok? && r.result.value.evicted.Some? && r.result.value.address == 4096
    ensures var r := Convert(m, l, VirtualToPhysical, input, AsWritten);
      && r.result.value.hex == "0x8000"
      && Convert(r.memory, l, PhysicalToVirtual, "0x8000", AsWritten).result == Err(AddressOutOfBounds)
  {
    var r := Convert(m, l, VirtualToPhysical, input, AsWritten);
    var a := ParseInt(input, 16).value;
    FaultShowsFaultHex(m, l, a, AsWritten);
    AsWrittenShows8000();
    ReadsAs32768();
    DefaultLimit(l);
    ConvertRejects(r.memory, l, PhysicalToVirtual, "0x8000", AsWritten);
  }

  /** The hexadecimal a virtual-to-physical conversion shows on a page that is not
      loaded is the fault path's, and only that path evicts. */
  lemma FaultShowsFaultHex(m: Memory, l: Layout, a: nat, d: FaultDisplay)
    requires WellFormed(m, l) && a < l.AddressLimit()
    ensures PageNumber(l, a) < |m.table|
    ensures var r := TranslateVirtual(m, l, a, d); var c := r.result.value;
      && (!m.table[PageNumber(l, a)].present ==>
            c.hex == ShownFaultHex(d, l.PhysicalBits(), c.address) && r.memory == PageFault(m, PageNumber(l, a), l).memory)
      && (c.evicted.Some? ==> !m.table[PageNumber(l, a)].present)
  {
    LayoutSpaces(l);
    PageOfAddress(a, l.PageBytes(), l.Pages());
  }

  /** The default layout: 13-bit physical addresses and a 16 KB virtual space. */
  lemma DefaultLimit(l: Layout)
    requires l.frameBits == 1 && l.offsetBits == 12
    ensures l.PhysicalBits() == 13 && l.AddressLimit() == 16384
  {
    PowAdd(2, 2, 12);
    assert Pow(2, 2) == 4;
    assert Pow(2, 12) == 4096;
  }

  lemma AsWrittenShows8000()
    ensures NibbleHexAsWritten(13, 4096) == "0x8000"
  {
    Binary4096();
    GroupedFromTheLeft();
    AsWrittenFrom(13, 4096, "1" + Repeat('0', 12), "8000");
    Prefixed8000();
  }

  /** The grouping as written shows "0x" before binaryToHex of the padded binary. */
  lemma AsWrittenFrom(bits: nat, pa: nat, b: string, digits: string)
    requires ToBinary(pa, bits) == b && BinaryToHex(b) == digits
    ensures NibbleHexAsWritten(bits, pa) == "0x" + digits
  {
  }

  lemma CorrectedShows1000()
    ensures FaultHex(13, 4096) == "0x1000"
  {
    Binary4096();
    GroupedInWholeNibbles();
    CorrectedFrom(13, 4096, "1" + Repeat('0', 12), "1000");
    Prefixed1000();
  }

  /** The corrected grouping shows "0x" before the whole-nibble digits of the padded binary. */
  lemma CorrectedFrom(bits: nat, pa: nat, b: string, digits: string)
    requires ToBinary(pa, bits) == b && NibbleAlignedHex(b) == digits
    ensures FaultHex(bits, pa) == "0x" + digits
  {
  }

  /** String-literal steps, kept apart from the lemmas about 0x1000 so that the solver
      does not meet literal concatenations and the fault display in one proof. */
  lemma Prefixed8000()
    ensures "0x" + "8000" == "0x8000"
  {
  }

  lemma Prefixed1000()
    ensures "0x" + "1000" == "0x1000"
  {
  }

  /** The sizes the form starts with, 16, 8 and 4 KB, make two frames of 4 KB. */
  lemma DefaultLayout()
    ensures Exact(Config(16, 8, 4)) && LayoutOf(Config(16, 8, 4)) == Layout(1, 12)
    ensures Layout(1, 12).PhysicalBits() == 13
  {
    assert IsPow2(4) && IsPow2(2);
    assert Log2(2) == 1;
    assert Log2(4096) == 12;
  }

  /** toBinary(4096, 13): a one and twelve zeros. */
  lemma Binary4096()
    ensures ToBinary(4096, 13) == "1" + Repeat('0', 12)
  {
    var s := "1" + Repeat('0', 12);
    DigitThenZeros('1', 12, 2);
    assert ['1'] == "1";
    assert Pow(2, 12) == 4096;
    CanonicalBinary(s);
  }

  /** A digit followed by k zeros is worth the digit times radix^k. */
  lemma DigitThenZeros(c: char, k: nat, radix: nat)
    requires IsDigit(c, radix)
    ensures IsNumeral([c] + Repeat('0', k), radix)
    ensures Value([c] + Repeat('0', k), radix) == DigitValue(c).value * Pow(radix, k)
  {
    ValueOfDigit(c, radix);
    ZerosAreWorthNothing(k, radix);
    ValueConcat([c], Repeat('0', k), radix);
  }

  /** The hex digit of a group of four or fewer zeros. */
  lemma ZeroGroup(k: nat)
    requires 1 <= k <= 4
    ensures IsNumeral(Repeat('0', k), 2) && ToUpperCase(ToString(Value(Repeat('0', k), 2), 16)) == "0"
  {
    ZerosAreWorthNothing(k, 2);
  }

  /** binaryToHex turns a run of zeros into a run of zero digits, one per group:
      n full groups of four and a last group of r zeros make n + 1 digits. */
  lemma {:induction false} ZerosToHex(n: nat, r: nat)
    requires 1 <= r <= 4
    ensures IsNumeral(Repeat('0', 4 * n + r), 2) && BinaryToHex(Repeat('0', 4 * n + r)) == Repeat('0', n + 1)
    decreases n
  {
    if n == 0 {
      ZeroGroupHex(r);
    } else {
      var rest := Repeat('0', 4 * (n - 1) + r);
      assert IsNumeral(rest, 2) && BinaryToHex(rest) == Repeat('0', n) by {
        ZerosToHex(n - 1, r);
      }
      assert IsNumeral(Repeat('0', 4 * n + r), 2)
        && BinaryToHex(Repeat('0', 4 * n + r)) == "0" + BinaryToHex(rest) by {
        ZerosPeel(n, r);
      }
      ZeroDigitsCons(n);
    }
  }

  /** One more zero digit in front. */
  lemma ZeroDigitsCons(n: nat)
    ensures "0" + Repeat('0', n) == Repeat('0', n + 1)
  {
  }

  /** A single group of zeros is one zero digit. */
  lemma ZeroGroupHex(k: nat)
    requires 1 <= k <= 4
    ensures IsNumeral(Repeat('0', k), 2) && BinaryToHex(Repeat('0', k)) == "0"
  {
    ZeroGroup(k);
  }

  /** The first group of a run of more than four zeros is one zero digit. */
  lemma ZerosPeel(n: nat, r: nat)
    requires n >= 1 && 1 <= r <= 4
    ensures IsNumeral(Repeat('0', 4 * n + r), 2) && IsNumeral(Repeat('0', 4 * (n - 1) + r), 2)
    ensures BinaryToHex(Repeat('0', 4 * n + r)) == "0" + BinaryToHex(Repeat('0', 4 * (n - 1) + r))
  {
    var k := 4 * n + r;
    ZerosAreWorthNothing(k, 2);
    ZerosAreWorthNothing(k - 4, 2);
    var z := Repeat('0', k);
    assert z[..4] == Repeat('0', 4) && z[4..] == Repeat('0', 4 * (n - 1) + r);
    ZeroGroup(4);
  }

  lemma GroupedFromTheLeft()
    ensures BinaryToHex("1" + Repeat('0', 12)) == "8000"
  {
    var s := "1" + Repeat('0', 12);
    assert s[4..] == Repeat('0', 9);
    FirstGroupIsEight(s);
    ZerosToHex(2, 1);
  }

  lemma FirstGroupIsEight(s: string)
    requires s == "1" + Repeat('0', 12)
    ensures IsNumeral(s, 2) && IsNumeral(s[..4], 2) && ToUpperCase(ToString(Value(s[..4], 2), 16)) == "8"
  {
    ZerosAreWorthNothing(12, 2);
    assert s[..4] == ['1'] + Repeat('0', 3);
    DigitThenZeros('1', 3, 2);
    assert Pow(2, 3) == 8;
    assert ToUpperCase(ToString(8, 16)) == "8";
  }

  lemma GroupedInWholeNibbles()
    ensures NibbleAlignedHex("1" + Repeat('0', 12)) == "1000"
  {
    var s := "1" + Repeat('0', 12);
    assert NibbleWidth(13) == 16;
    var padded := PadStart(s, 16, '0');
    assert padded == Repeat('0', 3) + s;
    assert padded[..4] == Repeat('0', 3) + "1" && padded[4..] == Repeat('0', 12);
    ValueLeadingZeros(3, "1", 2);
    ValueOfDigit('1', 2);
    ZerosAreWorthNothing(12, 2);
    assert ToUpperCase(ToString(1, 16)) == "1";
    ZerosToHex(2, 4);
  }

  lemma ReadsAs32768()
    ensures ParseInt("0x8000", 16) == Some(32768)
  {
    DigitThenZeros('8', 3, 16);
    assert "8000" == ['8'] + Repeat('0', 3);
    assert Pow(16, 3) == 4096;
    ParseHexLiteral("8000");
  }

  /** When the physical address width is a whole number of nibbles, the grouping as
      written and the corrected one agree on every address of the physical space. */
  lemma NibbleHexAsWrittenOnWholeNibbles(bits: nat, pa: nat)
    requires bits >= 1 && bits % 4 == 0 && pa < Pow(2, bits)
    ensures NibbleHexAsWritten(bits, pa) == FaultHex(bits, pa)
  {
    ToBinaryValue(pa, bits);
    ToBinaryWidth(pa, bits);
    NibbleAlignedOnWhole(ToBinary(pa, bits));
  }

  lemma NibbleAlignedOnWhole(s: string)
    requires IsNumeral(s, 2) && |s| % 4 == 0
    ensures NibbleAlignedHex(s) == BinaryToHex(s)
  {
    assert NibbleWidth(|s|) == |s|;
  }
}
