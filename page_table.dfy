/** The page table and the FIFO load queue: the rows, the shape every reachable state
    has (WellFormed), the stronger FIFO bookkeeping the generator establishes and the
    replacement engine keeps (Consistent), the generator, and the drag-and-drop row swap. */
module PageTable {
  import opened Wrappers
  import opened Radix
  import opened Codec
  import opened Geometry

  /** One row of the page table: the virtual page number and the frame number as
      binary strings, the present bit and the arrival order (-1 when not loaded). */
  datatype Entry = Entry(virtualIndex: string, physicalIndex: string, present: bool, arrivalOrder: int)

  /** The page table, indexed by virtual page number, and the FIFO load queue of
      virtual page numbers, oldest first. */
  datatype Memory = Memory(table: seq<Entry>, queue: seq<nat>)

  /** What eviction leaves of a row. */
  function Cleared(e: Entry): Entry
  {
    e.(present := false, physicalIndex := "", arrivalOrder := -1)
  }

  /** What loading the page into a frame makes of its row. */
  function Loaded(e: Entry, physicalIndex: string, arrivalOrder: int): Entry
  {
    e.(present := true, physicalIndex := physicalIndex, arrivalOrder := arrivalOrder)
  }

  /** table.filter(e => e.present).length */
  function PresentCount(t: seq<Entry>): (n: nat)
    ensures n <= |t|
  {
    if t == [] then 0 else PresentCount(t[..|t| - 1]) + (if t[|t| - 1].present then 1 else 0)
  }

  function Bit(b: bool): nat
  {
    if b then 1 else 0
  }

  /** Overwriting one row changes the present count by that row's change alone. */
  lemma {:induction false} PresentCountUpdate(t: seq<Entry>, i: nat, e: Entry)
    requires i < |t|
    ensures PresentCount(t[i := e]) + Bit(t[i].present) == PresentCount(t) + Bit(e.present)
    decreases |t|
  {
    var last := |t| - 1;
    if i == last {
      assert t[i := e][..last] == t[..last];
    } else {
      assert t[i := e][..last] == t[..last][i := e];
      PresentCountUpdate(t[..last], i, e);
    }
  }

  /** The strings a physicalIndex field holds: '' for no frame, or a binary numeral. */
  predicate IsPhysicalIndex(s: string)
  {
    s == "" || IsNumeral(s, 2)
  }

  /** parseInt(physicalIndex, 2) as the shift operator sees it: NaN (from '') becomes 0. */
  function FrameNumber(s: string): (f: nat)
    requires IsPhysicalIndex(s)
    ensures s != "" ==> ParseInt(s, 2) == Some(f)
    ensures s == "" ==> ParseInt(s, 2) == None && f == 0
  {
    if s == "" then 0
    else
      ParseNumeral(s, 2);
      Value(s, 2)
  }

  /** The row test of the victim lookup: the row's virtual index reads as page v, or
      is toBinary(v, bits) letter for letter. */
  function IsVictim(v: nat, bits: int): Entry -> bool
  {
    (e: Entry) => ParseInt(e.virtualIndex, 2) == Some(v) || e.virtualIndex == ToBinary(v, bits)
  }

  /** The row test of the physical-to-virtual lookup: a loaded row whose physical index
      reads as frame f. */
  function OwnsFrame(f: nat): Entry -> bool
  {
    (e: Entry) => e.present && ParseInt(e.physicalIndex, 2) == Some(f)
  }

  /** The shape every state the simulator reaches from a generated table has: one row
      per virtual page labelled with its own number, physical indexes that are '' or
      binary numerals, and a queue of page numbers at least as long as there are frames. */
  predicate WellFormed(m: Memory, l: Layout)
  {
    && |m.table| == l.Pages()
    && (forall v :: 0 <= v < |m.table| ==> m.table[v].virtualIndex == ToBinary(v, l.PageBits()))
    && (forall v :: 0 <= v < |m.table| ==> IsPhysicalIndex(m.table[v].physicalIndex))
    && (forall i :: 0 <= i < |m.queue| ==> m.queue[i] < |m.table|)
    && |m.queue| >= l.Frames()
  }

  /** The FIFO bookkeeping: the queue lists each loaded page exactly once and nothing
      else, every row is in shape, and every frame is held by at most one page. */
  predicate Consistent(m: Memory, l: Layout)
  {
    WellFormed(m, l) && QueueTracksLoaded(m, l) && RowsInShape(m.table, l) && FramesDistinct(m.table)
  }

  /** The queue holds each loaded page once, and only loaded pages: there are exactly
      totalFrames of them. */
  predicate QueueTracksLoaded(m: Memory, l: Layout)
  {
    && |m.queue| == l.Frames()
    && PresentCount(m.table) == l.Frames()
    && (forall i, j :: 0 <= i < j < |m.queue| ==> m.queue[i] != m.queue[j])
    && (forall v :: 0 <= v < |m.table| ==> (m.table[v].present <==> v in m.queue))
  }

  /** Unloaded rows carry '' and -1; loaded rows a frame number below totalFrames and an
      arrival order below totalFrames. */
  predicate RowsInShape(t: seq<Entry>, l: Layout)
  {
    && (forall v :: 0 <= v < |t| && !t[v].present ==> t[v] == Cleared(t[v]))
    && (forall v :: 0 <= v < |t| && t[v].present ==>
          IsNumeral(t[v].physicalIndex, 2) && Value(t[v].physicalIndex, 2) < l.Frames()
          && 0 <= t[v].arrivalOrder < l.Frames())
  }

  /** No two loaded rows name the same frame. */
  predicate FramesDistinct(t: seq<Entry>)
  {
    forall v, w ::
      (0 <= v < w < |t| && t[v].present && t[w].present
       && IsNumeral(t[v].physicalIndex, 2) && IsNumeral(t[w].physicalIndex, 2))
      ==> Value(t[v].physicalIndex, 2) != Value(t[w].physicalIndex, 2)
  }

  /** A label that reads as page v is the label of page v. */
  lemma LabelReadsAs(s: string, bits: nat, r: nat, v: nat)
    requires s == ToBinary(r, bits) && ParseInt(s, 2) == Some(v)
    ensures r == v
  {
    ParseToBinary(r, bits);
  }

  /** In a well-formed table the victim lookup finds row v itself: with the labels
      the generator writes, the string comparison adds no match of its own. */
  lemma FindVictim(m: Memory, l: Layout, v: nat)
    requires WellFormed(m, l) && v < |m.table|
    ensures FindIndex(m.table, IsVictim(v, Log2(|m.table|))) == Some(v)
  {
    Log2Pow(l.PageBits());
    var bits := l.PageBits();
    var r := FindIndex(m.table, IsVictim(v, bits));
    ParseToBinary(v, bits);
    if r.Some? {
      var name := m.table[r.value].virtualIndex;
      if ParseInt(name, 2) == Some(v) {
        LabelReadsAs(name, bits, r.value, v);
      } else {
        ParseToBinary(r.value, bits);
      }
    }
  }

  /** parseInt(virtualIndex, 2) of row i: in a well-formed table, i itself. */
  function LabelNumber(m: Memory, l: Layout, i: nat): (v: nat)
    requires WellFormed(m, l) && i < |m.table|
    ensures ParseInt(m.table[i].virtualIndex, 2) == Some(v)
  {
    ParseToBinary(i, l.PageBits());
    i
  }

  /** Row i of a freshly generated table: loaded in frame i when i < totalFrames. */
  function InitialEntry(l: Layout, i: nat): Entry
  {
    var loaded := i < l.Frames();
    Entry(ToBinary(i, l.PageBits()),
          if loaded then ToBinary(i, l.frameBits) else "",
          loaded,
          if loaded then i else -1)
  }

  /** Array.from({ length: totalPages }, (_, i) => ...): one row per virtual page. */
  function InitialTable(l: Layout): (t: seq<Entry>)
    ensures |t| == l.Pages() && forall i :: 0 <= i < |t| ==> t[i] == InitialEntry(l, i)
  {
    seq(l.Pages(), i requires 0 <= i => InitialEntry(l, i))
  }

  predicate LabelsAreNumerals(t: seq<Entry>)
  {
    forall i :: 0 <= i < |t| ==> IsNumeral(t[i].virtualIndex, 2)
  }

  /** table.filter(e => e.present).map(e => parseInt(e.virtualIndex, 2)): the page
      numbers of the loaded rows, in table order. Every label is a binary numeral, so
      parseInt reads all of it. */
  function LoadedPages(t: seq<Entry>): seq<nat>
    requires LabelsAreNumerals(t)
  {
    if t == [] then []
    else
      var last := t[|t| - 1];
      LoadedPages(t[..|t| - 1]) + (if last.present then [Value(last.virtualIndex, 2)] else [])
  }

  /** The queue built from the table has one page per loaded row. */
  lemma {:induction false} LoadedPagesCount(t: seq<Entry>)
    requires LabelsAreNumerals(t)
    ensures |LoadedPages(t)| == PresentCount(t)
    decreases |t|
  {
    if t != [] {
      assert LabelsAreNumerals(t[..|t| - 1]);
      LoadedPagesCount(t[..|t| - 1]);
    }
  }

  /** The queue built from the table holds exactly the labels of the loaded rows. */
  lemma {:induction false} LoadedPagesMembers(t: seq<Entry>)
    requires LabelsAreNumerals(t)
    ensures forall p :: p in LoadedPages(t) <==>
      exists i :: 0 <= i < |t| && t[i].present && p == Value(t[i].virtualIndex, 2)
    decreases |t|
  {
    if t != [] {
      var init := t[..|t| - 1];
      assert LabelsAreNumerals(init);
      LoadedPagesMembers(init);
      forall p | p in LoadedPages(t)
        ensures exists i :: 0 <= i < |t| && t[i].present && p == Value(t[i].virtualIndex, 2)
      {
        if p in LoadedPages(init) {
          var i :| 0 <= i < |init| && init[i].present && p == Value(init[i].virtualIndex, 2);
          assert t[i] == init[i];
        }
      }
      forall p | exists i :: 0 <= i < |t| && t[i].present && p == Value(t[i].virtualIndex, 2)
        ensures p in LoadedPages(t)
      {
        var i :| 0 <= i < |t| && t[i].present && p == Value(t[i].virtualIndex, 2);
        if i < |t| - 1 {
          assert init[i] == t[i];
        }
      }
    }
  }

  /** Rows labelled with their own numbers, the first k of them loaded. */
  predicate FirstLoaded(t: seq<Entry>, bits: nat, k: nat)
  {
    forall i :: 0 <= i < |t| ==> t[i].virtualIndex == ToBinary(i, bits) && (t[i].present <==> i < k)
  }

  lemma InitialIsFirstLoaded(l: Layout)
    ensures FirstLoaded(InitialTable(l), l.PageBits(), l.Frames())
  {
  }

  lemma LabelsOfFirstLoaded(t: seq<Entry>, bits: nat, k: nat)
    requires FirstLoaded(t, bits, k)
    ensures LabelsAreNumerals(t)
  {
    forall i | 0 <= i < |t|
      ensures IsNumeral(t[i].virtualIndex, 2)
    {
      ToBinaryValue(i, bits);
    }
  }

  function Min(a: nat, b: nat): nat
  {
    if a < b then a else b
  }

  /** The page numbers 0, 1, ..., n-1 in order. */
  function Upto(n: nat): (r: seq<nat>)
    ensures |r| == n && forall i :: 0 <= i < n ==> r[i] == i
  {
    if n == 0 then [] else Upto(n - 1) + [n - 1]
  }

  lemma FirstLoadedPrefix(t: seq<Entry>, bits: nat, k: nat, n: nat)
    requires FirstLoaded(t, bits, k) && n <= |t|
    ensures FirstLoaded(t[..n], bits, k)
  {
  }

  /** When the first k rows are loaded, the loaded pages of every prefix are
      0, 1, ... in order. */
  lemma {:induction false} LoadedPagesOfFirstLoaded(t: seq<Entry>, bits: nat, k: nat, n: nat)
    requires FirstLoaded(t, bits, k) && n <= |t|
    ensures LabelsAreNumerals(t[..n])
    ensures LoadedPages(t[..n]) == Upto(Min(n, k))
    decreases n
  {
    var p := t[..n];
    FirstLoadedPrefix(t, bits, k, n);
    LabelsOfFirstLoaded(p, bits, k);
    if n > 0 {
      LoadedPagesOfFirstLoaded(t, bits, k, n - 1);
      assert p[..n - 1] == t[..n - 1];
      ToBinaryValue(n - 1, bits);
    }
  }

  /** When the first k rows are loaded, a prefix of n rows holds min(n, k) loaded ones. */
  lemma {:induction false} PresentCountOfFirstLoaded(t: seq<Entry>, bits: nat, k: nat, n: nat)
    requires FirstLoaded(t, bits, k) && n <= |t|
    ensures PresentCount(t[..n]) == Min(n, k)
    decreases n
  {
    if n > 0 {
      PresentCountOfFirstLoaded(t, bits, k, n - 1);
      assert t[..n][..n - 1] == t[..n - 1];
    }
  }

  datatype GenerateError =
    | InvalidSizes   // a size is not positive, or physical space is not half of virtual space
    | InexactSizes   // page size or frame count not a power of two, or page size not dividing the spaces

  /** generatePageTable: the table and the queue a configuration starts with. */
  function GenerateTable(c: Config): (r: Result<Memory, GenerateError>)
    ensures r.Ok? <==> Exact(c)
    ensures !SizesAccepted(c) ==> r == Err(InvalidSizes)
  {
    if !SizesAccepted(c) then Err(InvalidSizes)
    else if !Exact(c) then Err(InexactSizes)
    else
      var t := InitialTable(LayoutOf(c));
      InitialIsFirstLoaded(LayoutOf(c));
      LabelsOfFirstLoaded(t, LayoutOf(c).PageBits(), LayoutOf(c).Frames());
      Ok(Memory(t, LoadedPages(t)))
  }

  /** A generated table has totalPages rows; row i is loaded in frame i with arrival
      order i when i < totalFrames and empty otherwise; the queue is 0 .. totalFrames-1. */
  lemma GeneratedTable(c: Config)
    requires Exact(c)
    ensures var m := GenerateTable(c).value; var l := LayoutOf(c);
      && |m.table| == l.Pages()
      && (forall i :: 0 <= i < |m.table| ==> m.table[i].virtualIndex == ToBinary(i, l.PageBits()))
      && (forall i :: 0 <= i < |m.table| && i < l.Frames() ==>
            m.table[i].present && m.table[i].physicalIndex == ToBinary(i, l.frameBits) && m.table[i].arrivalOrder == i)
      && (forall i :: l.Frames() <= i < |m.table| ==>
            !m.table[i].present && m.table[i].physicalIndex == "" && m.table[i].arrivalOrder == -1)
      && m.queue == Upto(l.Frames())
  {
    GeneratedLayout(LayoutOf(c));
  }

  lemma GeneratedLayout(l: Layout)
    ensures FirstLoaded(InitialTable(l), l.PageBits(), l.Frames())
    ensures LabelsAreNumerals(InitialTable(l))
    ensures LoadedPages(InitialTable(l)) == Upto(l.Frames())
    ensures PresentCount(InitialTable(l)) == l.Frames()
  {
    var t := InitialTable(l);
    InitialIsFirstLoaded(l);
    LoadedPagesOfFirstLoaded(t, l.PageBits(), l.Frames(), |t|);
    PresentCountOfFirstLoaded(t, l.PageBits(), l.Frames(), |t|);
    assert t[..|t|] == t;
    PowMonotonic(2, l.frameBits, l.frameBits + 1);
  }

  /** A generated table satisfies the FIFO bookkeeping. */
  lemma GeneratedIsConsistent(c: Config)
    requires Exact(c)
    ensures Consistent(GenerateTable(c).value, LayoutOf(c))
  {
    var l := LayoutOf(c);
    GeneratedLayout(l);
    PowMonotonic(2, l.frameBits, l.frameBits + 1);
    InitialWellFormed(l);
    InitialFrames(l);
    InitialQueue(l);
    UptoDistinct(l.Frames());
  }

  lemma InitialWellFormed(l: Layout)
    requires LabelsAreNumerals(InitialTable(l)) && LoadedPages(InitialTable(l)) == Upto(l.Frames())
    ensures WellFormed(Memory(InitialTable(l), LoadedPages(InitialTable(l))), l)
  {
    InitialPhysicalIndexes(l);
    UptoBelow(l.Frames(), l.Pages());
  }

  lemma InitialPhysicalIndexes(l: Layout)
    ensures forall v :: 0 <= v < |InitialTable(l)| ==> IsPhysicalIndex(InitialTable(l)[v].physicalIndex)
  {
    var t := InitialTable(l);
    forall v | 0 <= v < |t|
      ensures IsPhysicalIndex(t[v].physicalIndex)
    {
      ToBinaryValue(v, l.frameBits);
    }
  }

  lemma UptoDistinct(n: nat)
    ensures forall i, j :: 0 <= i < j < |Upto(n)| ==> Upto(n)[i] != Upto(n)[j]
  {
  }

  lemma UptoBelow(n: nat, bound: nat)
    requires n <= bound
    ensures forall i :: 0 <= i < |Upto(n)| ==> Upto(n)[i] < bound
  {
  }

  lemma InitialFrames(l: Layout)
    ensures var t := InitialTable(l);
      && (forall v :: 0 <= v < |t| && !t[v].present ==> t[v] == Cleared(t[v]))
      && (forall v :: 0 <= v < |t| && t[v].present ==>
            IsNumeral(t[v].physicalIndex, 2) && Value(t[v].physicalIndex, 2) == v && 0 <= t[v].arrivalOrder < l.Frames())
      && (forall v, w :: 0 <= v < w < |t| && t[v].present && t[w].present ==>
            Value(t[v].physicalIndex, 2) != Value(t[w].physicalIndex, 2))
  {
    var t := InitialTable(l);
    forall v | 0 <= v < |t| && t[v].present
      ensures IsNumeral(t[v].physicalIndex, 2) && Value(t[v].physicalIndex, 2) == v
    {
      ToBinaryValue(v, l.frameBits);
    }
  }

  lemma InitialQueue(l: Layout)
    requires LabelsAreNumerals(InitialTable(l)) && LoadedPages(InitialTable(l)) == Upto(l.Frames())
    ensures var t := InitialTable(l);
      forall v :: 0 <= v < |t| ==> (t[v].present <==> v in Upto(l.Frames()))
  {
    var t := InitialTable(l);
    forall v | 0 <= v < |t|
      ensures t[v].present <==> v in Upto(l.Frames())
    {
      if v < l.Frames() { assert Upto(l.Frames())[v] == v; }
    }
  }

  /** The row swap of handleDrop: rows `from` and `to` exchange every field except
      their virtual index. */
  function SwapRows(t: seq<Entry>, from: nat, to: nat): (r: seq<Entry>)
    requires from < |t| && to < |t|
    ensures |r| == |t|
  {
    t[from := t[to].(virtualIndex := t[from].virtualIndex)][to := t[from].(virtualIndex := t[to].virtualIndex)]
  }

  /** Swapping the same two rows twice restores the table; swapping a row with itself
      changes nothing. */
  lemma SwapRowsInvolution(t: seq<Entry>, a: nat, b: nat)
    requires a < |t| && b < |t|
    ensures SwapRows(SwapRows(t, a, b), a, b) == t
    ensures SwapRows(t, a, a) == t
  {
  }

  /** A swap keeps the labels and the shape of every row. */
  lemma SwapKeepsWellFormed(m: Memory, l: Layout, a: nat, b: nat)
    requires WellFormed(m, l) && a < |m.table| && b < |m.table|
    ensures WellFormed(Memory(SwapRows(m.table, a, b), m.queue), l)
  {
  }

  /** A swap keeps the FIFO bookkeeping exactly when both rows are loaded or both are
      empty: moving a loaded page's frame onto an empty row leaves the queue naming a
      page that is no longer loaded. */
  lemma SwapKeepsConsistentIff(m: Memory, l: Layout, a: nat, b: nat)
    requires Consistent(m, l) && a < |m.table| && b < |m.table| && a != b
    ensures Consistent(Memory(SwapRows(m.table, a, b), m.queue), l) <==> m.table[a].present == m.table[b].present
  {
    if m.table[a].present == m.table[b].present {
      SwapKeepsWellFormed(m, l, a, b);
      SwapKeepsQueue(m, l, a, b);
      SwapKeepsShape(m.table, l, a, b);
      SwapKeepsDistinct(m.table, a, b);
    } else {
      var loaded := if m.table[a].present then a else b;
      assert !SwapRows(m.table, a, b)[loaded].present && loaded in m.queue;
    }
  }

  lemma SwapKeepsQueue(m: Memory, l: Layout, a: nat, b: nat)
    requires QueueTracksLoaded(m, l) && a < |m.table| && b < |m.table| && m.table[a].present == m.table[b].present
    ensures QueueTracksLoaded(Memory(SwapRows(m.table, a, b), m.queue), l)
  {
    var t := m.table;
    var r := SwapRows(t, a, b);
    PresentCountUpdate(t, a, r[a]);
    PresentCountUpdate(t[a := r[a]], b, r[b]);
    assert r == t[a := r[a]][b := r[b]];
  }

  lemma SwapKeepsShape(t: seq<Entry>, l: Layout, a: nat, b: nat)
    requires RowsInShape(t, l) && a < |t| && b < |t| && t[a].present == t[b].present
    ensures RowsInShape(SwapRows(t, a, b), l)
  {
  }

  /** Where row v of the swapped table comes from. */
  function SwapSource(a: nat, b: nat, v: nat): nat
  {
    if v == a then b else if v == b then a else v
  }

  lemma SwapKeepsDistinct(t: seq<Entry>, a: nat, b: nat)
    requires FramesDistinct(t) && a < |t| && b < |t|
    ensures FramesDistinct(SwapRows(t, a, b))
  {
    var r := SwapRows(t, a, b);
    forall v, w | 0 <= v < w < |r| && r[v].present && r[w].present && IsNumeral(r[v].physicalIndex, 2)
      && IsNumeral(r[w].physicalIndex, 2)
      ensures Value(r[v].physicalIndex, 2) != Value(r[w].physicalIndex, 2)
    {
      var v', w' := SwapSource(a, b, v), SwapSource(a, b, w);
      assert r[v].physicalIndex == t[v'].physicalIndex && r[v].present == t[v'].present;
      assert r[w].physicalIndex == t[w'].physicalIndex && r[w].present == t[w'].present;
    }
  }
}
