/** The state the Home component keeps between events, as a class: the three sizes
    the form holds, the page table, the FIFO queue and the row being dragged. Each
    event handler is a method that changes the fields the way the handler does, and
    is proved to agree with the value-level model of the other modules. */
module Session {
  import opened Wrappers
  import opened Radix
  import opened Codec
  import opened Geometry
  import opened PageTable
  import opened Replacement
  import opened Translation

  class Simulator {
    /** virtualSpace, physicalSpace and pageSize, in KB. */
    var config: Config
    /** totalPages, totalFrames and the address widths, as derived from the sizes the
        table on screen was generated from. */
    var layout: Layout
    /** pageTable together with fifoQueue.current. A fault changes both; a drop and a
        row edit change the table and keep the queue (memory.(table := ...)). */
    var memory: Memory
    /** dragStartIndex.current; None is null. */
    var dragStart: Option<nat>

    /** The sizes held are exact and the layout is the one they give. */
    ghost predicate Configured()
      reads this
    {
      Exact(config) && layout == LayoutOf(config)
    }

    /** The FIFO state a generated table starts in, and that faults, conversions and
        same-presence swaps preserve. */
    ghost predicate Valid()
      reads this
    {
      Consistent(memory, layout)
    }

    /** The component mounts with sizes 16, 8 and 4 KB, no table and no queue. */
    constructor()
      ensures config == Config(16, 8, 4) && Configured()
      ensures memory == Memory([], []) && dragStart == None
    {
      DefaultLayout();
      config := Config(16, 8, 4);
      layout := Layout(1, 12);
      memory := Memory([], []);
      dragStart := None;
    }

    /** The size inputs: setVirtualSpace, setPhysicalSpace and setPageSize. The table
        on screen, and the layout it was generated with, stay until the next Generate. */
    method SetSizes(c: Config)
      modifies this
      ensures config == c
      ensures unchanged(this`layout, this`memory, this`dragStart)
    {
      config := c;
    }

    /** generatePageTable: replace the table and the queue when the sizes pass the
        guard; otherwise report the error and change nothing. */
    method Generate() returns (error: Option<GenerateError>)
      modifies this
      ensures unchanged(this`config, this`dragStart)
      ensures GenerateTable(config).Ok? ==>
        error == None && memory == GenerateTable(config).value && Configured()
      ensures GenerateTable(config).Err? ==>
        && error == Some(GenerateTable(config).error)
        && unchanged(this`memory, this`layout)
      ensures error == None ==> Valid()
    {
      var generated := GenerateTable(config);
      if generated.Err? {
        error := Some(generated.error);
      } else {
        GeneratedIsConsistent(config);
        Install(generated.value, LayoutOf(config));
        error := None;
      }
    }

    /** setPageTable and fifoQueue.current = ... of a table built for layout l. */
    method Install(m: Memory, l: Layout)
      requires Consistent(m, l)
      modifies this
      ensures memory == m && layout == l && Valid()
      ensures unchanged(this`config, this`dragStart)
    {
      memory, layout := m, l;
    }

    /** handlePageReplacement: count the loaded rows; at capacity shift the oldest page
        off the queue, find its row and clear it, reusing its physical index; below
        capacity take frame number presentCount; then load `page` and push it. */
    method HandlePageReplacement(page: nat) returns (physicalIndex: string, evicted: Option<nat>)
      requires WellFormed(memory, layout) && page < |memory.table|
      modifies this
      ensures unchanged(this`config, this`layout, this`dragStart)
      ensures var f := PageFault(old(memory), page, layout);
        memory == f.memory && physicalIndex == f.physicalIndex && evicted == f.evicted
      ensures WellFormed(memory, layout)
      ensures old(Valid()) && !old(memory.table[page].present) ==> Valid()
    {
      ghost var before := memory;
      ghost var wasValid := Valid();
      var l := layout;
      ghost var f := PageFault(before, page, l);
      var t, q := memory.table, memory.queue;
      var loaded := PresentCount(t);
      if loaded >= l.Frames() {
        var victim := q[0];
        q := q[1..];
        FindVictim(before, l, victim);
        var slot := FindIndex(t, IsVictim(victim, Log2(|t|))).value;
        physicalIndex := t[slot].physicalIndex;
        t := t[slot := Cleared(t[slot])];
        evicted := Some(victim);
        assert f == ReuseOldest(before, page, l);
        assert slot == VictimSlot(before, l, victim);
      } else {
        physicalIndex := ToBinary(loaded, Log2(l.Frames()));
        evicted := None;
        assert f == TakeFreeFrame(before, page, l, loaded);
      }
      t := t[page := Loaded(t[page], physicalIndex, |q|)];
      q := q + [page];
      assert Memory(t, q) == f.memory;
      memory := Memory(t, q);
      FaultKeepsWellFormed(before, l, page);
      if wasValid && !before.table[page].present {
        FaultKeepsConsistent(before, l, page);
      }
    }

    /** handleAddressConversion: parse and bound the input, then translate; a page
        that is not loaded is faulted in through HandlePageReplacement first, and its
        hexadecimal is grouped from the left as the source writes it. */
    method Convert(dir: Direction, input: string) returns (r: Result<Conversion, ConversionError>)
      requires WellFormed(memory, layout)
      modifies this
      ensures unchanged(this`config, this`layout, this`dragStart)
      ensures var c := Translation.Convert(old(memory), layout, dir, input, AsWritten);
        r == c.result && memory == c.memory
      ensures WellFormed(memory, layout)
      ensures old(Valid()) ==> Valid()
    {
      var l := layout;
      ghost var before := memory;
      var parsed := ParseInt(input, 16);
      if parsed.None? {
        return Err(InvalidHexAddress);
      }
      var a := parsed.value;
      if a < 0 || a >= l.AddressLimit() {
        return Err(AddressOutOfBounds);
      }
      if dir == PhysicalToVirtual {
        r := TranslatePhysical(memory, l, a).result;
        return;
      }
      LayoutSpaces(l);
      PageOfAddress(a, l.PageBytes(), l.Pages());
      var page := PageNumber(l, a);
      var offset := Offset(l, a);
      if Valid() {
        VirtualLands(before, l, a, AsWritten);
      }
      if !memory.table[page].present {
        var physicalIndex, evicted := HandlePageReplacement(page);
        var pa := Join(l, FrameNumber(physicalIndex), offset);
        r := Ok(ShowVirtual(l, a, page, pa, NibbleHexAsWritten(l.PhysicalBits(), pa), evicted));
      } else {
        var pa := Join(l, FrameNumber(memory.table[page].physicalIndex), offset);
        r := Ok(ShowVirtual(l, a, page, pa, HexLiteral(pa), None));
      }
    }

    /** handleDragStart: remember the row being dragged. */
    method DragStart(index: nat)
      modifies this
      ensures dragStart == Some(index)
      ensures unchanged(this`config, this`layout, this`memory)
    {
      dragStart := Some(index);
    }

    /** handleDrop: with no row being dragged, or a drop on the row itself, nothing
        happens; otherwise the two rows exchange everything but their virtual index
        and the drag ends. The queue is not touched. A drag index left over from a
        larger table (Generate keeps the drag) names no row: reading its virtualIndex
        throws a TypeError before anything is written, reported here as `thrown`.
        The drop index is a rendered row's (app/page.js:287). */
    method Drop(dropIndex: nat) returns (thrown: bool)
      requires dropIndex < |memory.table|
      modifies this
      ensures thrown <==>
        old(dragStart).Some? && old(dragStart) != Some(dropIndex) && old(dragStart).value >= |old(memory.table)|
      ensures thrown || old(dragStart) == None || old(dragStart) == Some(dropIndex) ==>
        unchanged(this`memory, this`dragStart)
      ensures !thrown && old(dragStart).Some? && old(dragStart) != Some(dropIndex) ==>
        && memory.table == SwapRows(old(memory.table), old(dragStart).value, dropIndex)
        && memory.queue == old(memory.queue) && dragStart == None
      ensures unchanged(this`config, this`layout)
      ensures old(WellFormed(memory, layout)) ==> WellFormed(memory, layout)
      ensures old(Valid()) && !thrown && old(dragStart).Some? && old(dragStart) != Some(dropIndex) ==>
        (Valid() <==> old(memory.table[dragStart.value].present) == old(memory.table[dropIndex].present))
    {
      thrown := false;
      if dragStart == None || dragStart == Some(dropIndex) {
        return;
      }
      var from := dragStart.value;
      if from >= |memory.table| {
        thrown := true;
        return;
      }
      ghost var before := memory;
      ghost var wasValid := Valid();
      var t := memory.table;
      var moved := t[from];
      t := t[from := t[dropIndex].(virtualIndex := t[from].virtualIndex)];
      t := t[dropIndex := moved.(virtualIndex := t[dropIndex].virtualIndex)];
      assert t == SwapRows(before.table, from, dropIndex);
      memory := memory.(table := t);
      dragStart := None;
      if WellFormed(before, layout) {
        SwapKeepsWellFormed(before, layout, from, dropIndex);
      }
      if wasValid {
        SwapKeepsConsistentIff(before, layout, from, dropIndex);
      }
    }
  }
}
