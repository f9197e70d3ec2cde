/** FIFO page replacement: what handlePageReplacement does to the page table and the
    load queue on a page fault, and what a run of accesses does over time. */
module Replacement {
  import opened Wrappers
  import opened Radix
  import opened Codec
  import opened Geometry
  import opened PageTable

  /** The new state, the physical index handed to the faulting page, and the page
      evicted to free it, if any. */
  datatype FaultOutcome = FaultOutcome(memory: Memory, physicalIndex: string, evicted: Option<nat>)

  /** handlePageReplacement(table, page, queue, totalFrames): at capacity, evict the
      page at the head of the queue and hand its frame to `page`; below capacity, hand
      out frame number presentCount. Either way `page` is loaded and joins the queue. */
  function PageFault(m: Memory, page: nat, l: Layout): (r: FaultOutcome)
    requires WellFormed(m, l) && page < |m.table|
    ensures IsPhysicalIndex(r.physicalIndex)
  {
    var count := PresentCount(m.table);
    if count >= l.Frames() then ReuseOldest(m, page, l)
    else TakeFreeFrame(m, page, l, count)
  }

  /** The branch at capacity: shift the oldest page off the queue, find its row, clear
      it, and load `page` into the frame it held. */
  function ReuseOldest(m: Memory, page: nat, l: Layout): (r: FaultOutcome)
    requires WellFormed(m, l) && page < |m.table|
    ensures IsPhysicalIndex(r.physicalIndex)
  {
    var victim := m.queue[0];
    var slot := VictimSlot(m, l, victim);
    var freed := m.table[slot].physicalIndex;
    var cleared := m.table[slot := Cleared(m.table[slot])];
    var rest := m.queue[1..];
    FaultOutcome(Memory(cleared[page := Loaded(cleared[page], freed, |rest|)], rest + [page]), freed, Some(victim))
  }

  /** updatedTable.findIndex(...) for the victim: in a well-formed table, its own row. */
  function VictimSlot(m: Memory, l: Layout, victim: nat): (slot: nat)
    requires WellFormed(m, l) && victim < |m.table|
    ensures slot == victim
  {
    FindVictim(m, l, victim);
    FindIndex(m.table, IsVictim(victim, Log2(|m.table|))).value
  }

  /** The branch below capacity: frame number presentCount is free. */
  function TakeFreeFrame(m: Memory, page: nat, l: Layout, count: nat): (r: FaultOutcome)
    requires page < |m.table|
    ensures IsPhysicalIndex(r.physicalIndex)
  {
    var freed := ToBinary(count, Log2(l.Frames()));
    ToBinaryValue(count, Log2(l.Frames()));
    FaultOutcome(Memory(m.table[page := Loaded(m.table[page], freed, |m.queue|)], m.queue + [page]), freed, None)
  }

  /** At capacity the page at the head of the queue is evicted: it leaves the queue,
      its row is cleared, the faulting page gets exactly its old physical index, and
      no other row changes. */
  lemma FaultAtCapacity(m: Memory, l: Layout, page: nat)
    requires WellFormed(m, l) && page < |m.table| && PresentCount(m.table) >= l.Frames()
    ensures var r := PageFault(m, page, l); var v := m.queue[0];
      && r.evicted == Some(v)
      && r.physicalIndex == m.table[v].physicalIndex
      && r.memory.queue == m.queue[1..] + [page]
      && |r.memory.table| == |m.table|
      && (v != page ==> r.memory.table[v] == Cleared(m.table[v]))
      && r.memory.table[page] == Loaded(m.table[page], m.table[v].physicalIndex, |m.queue| - 1)
      && (forall i :: 0 <= i < |m.table| && i != v && i != page ==> r.memory.table[i] == m.table[i])
  {
  }

  /** Below capacity nothing is evicted, the faulting page gets frame number
      presentCount written with log2(totalFrames) bits, and no other row changes. */
  lemma FaultBelowCapacity(m: Memory, l: Layout, page: nat)
    requires WellFormed(m, l) && page < |m.table| && PresentCount(m.table) < l.Frames()
    ensures var r := PageFault(m, page, l);
      && r.evicted == None
      && r.physicalIndex == ToBinary(PresentCount(m.table), l.frameBits)
      && r.memory.queue == m.queue + [page]
      && r.memory.table == m.table[page := Loaded(m.table[page], r.physicalIndex, |m.queue|)]
  {
    Log2Pow(l.frameBits);
  }

  /** After any fault the faulting page is loaded with the handed-out physical index,
      its arrival order is the queue length before the push, and it ends the queue. */
  lemma FaultInstalls(m: Memory, l: Layout, page: nat)
    requires WellFormed(m, l) && page < |m.table|
    ensures var r := PageFault(m, page, l);
      && page < |r.memory.table|
      && r.memory.table[page].present
      && r.memory.table[page].physicalIndex == r.physicalIndex
      && r.memory.table[page].virtualIndex == m.table[page].virtualIndex
      && r.memory.table[page].arrivalOrder == |r.memory.queue| - 1
      && r.memory.queue != [] && r.memory.queue[|r.memory.queue| - 1] == page
  {
    if PresentCount(m.table) >= l.Frames() {
      FaultAtCapacity(m, l, page);
    }
  }

  /** A fault keeps the shape of the state. */
  lemma FaultKeepsWellFormed(m: Memory, l: Layout, page: nat)
    requires WellFormed(m, l) && page < |m.table|
    ensures WellFormed(PageFault(m, page, l).memory, l)
  {
    var r := PageFault(m, page, l);
    if PresentCount(m.table) >= l.Frames() {
      FaultAtCapacity(m, l, page);
      KeptRowsWellFormed(m, r.memory, l, m.queue[0], page);
    } else {
      FaultBelowCapacity(m, l, page);
      ToBinaryValue(PresentCount(m.table), l.frameBits);
      LoadedRowWellFormed(m, r.memory, l, page, r.physicalIndex);
    }
  }

  lemma LoadedRowWellFormed(m: Memory, n: Memory, l: Layout, page: nat, freed: string)
    requires WellFormed(m, l) && page < |m.table| && IsPhysicalIndex(freed)
    requires n.table == m.table[page := Loaded(m.table[page], freed, |m.queue|)]
    requires n.queue == m.queue + [page]
    ensures WellFormed(n, l)
  {
  }

  lemma KeptRowsWellFormed(m: Memory, n: Memory, l: Layout, v: nat, page: nat)
    requires WellFormed(m, l) && v < |m.table| && page < |m.table| && |n.table| == |m.table|
    requires forall i :: 0 <= i < |m.table| && i != v && i != page ==> n.table[i] == m.table[i]
    requires v != page ==> n.table[v] == Cleared(m.table[v])
    requires n.table[page] == Loaded(m.table[page], m.table[v].physicalIndex, |m.queue| - 1)
    requires n.queue == m.queue[1..] + [page]
    ensures WellFormed(n, l)
  {
  }


  /** n is m after evicting v, the head of the queue, in favour of page. */
  ghost predicate Replaced(m: Memory, n: Memory, v: nat, page: nat)
  {
    && |n.table| == |m.table| && v < |m.table| && page < |m.table| && v != page
    && m.queue != [] && m.queue[0] == v && n.queue == m.queue[1..] + [page]
    && n.table[v] == Cleared(m.table[v])
    && n.table[page] == Loaded(m.table[page], m.table[v].physicalIndex, |m.queue| - 1)
    && (forall i :: 0 <= i < |m.table| && i != v && i != page ==> n.table[i] == m.table[i])
  }

  /** A fault on a page that is not loaded keeps the FIFO bookkeeping: the queue
      still lists exactly the loaded pages, once each, and frames stay distinct. */
  lemma FaultKeepsConsistent(m: Memory, l: Layout, page: nat)
    requires Consistent(m, l) && page < |m.table| && !m.table[page].present
    ensures Consistent(PageFault(m, page, l).memory, l)
  {
    var r := PageFault(m, page, l);
    var v := m.queue[0];
    FaultAtCapacity(m, l, page);
    FaultKeepsWellFormed(m, l, page);
    assert m.table[v].present;
    assert Replaced(m, r.memory, v, page);
    ReplacedQueue(m, r.memory, l, v, page);
    ReplacedShape(m, r.memory, l, v, page);
    ReplacedDistinct(m, r.memory, v, page);
  }

  lemma ReplacedQueue(m: Memory, n: Memory, l: Layout, v: nat, page: nat)
    requires QueueTracksLoaded(m, l) && Replaced(m, n, v, page)
    requires m.table[v].present && !m.table[page].present
    ensures QueueTracksLoaded(n, l)
  {
    var t := m.table;
    var cleared := t[v := Cleared(t[v])];
    PresentCountUpdate(t, v, Cleared(t[v]));
    PresentCountUpdate(cleared, page, n.table[page]);
    assert n.table == cleared[page := n.table[page]];
    assert page !in m.queue;
    forall i, j | 0 <= i < j < |n.queue|
      ensures n.queue[i] != n.queue[j]
    {
      if j < |n.queue| - 1 {
        assert n.queue[i] == m.queue[i + 1] && n.queue[j] == m.queue[j + 1];
      } else {
        assert n.queue[i] == m.queue[i + 1];
      }
    }
    forall u | 0 <= u < |n.table|
      ensures n.table[u].present <==> u in n.queue
    {
      if u != v && u != page {
        InTail(m.queue, u);
      } else if u == v {
        HeadNotInTail(m.queue);
      }
    }
  }

  /** Outside the head, the members of a queue are those of its tail. */
  lemma InTail(q: seq<nat>, u: nat)
    requires q != [] && u != q[0]
    ensures u in q <==> u in q[1..]
  {
    if u in q {
      var i :| 0 <= i < |q| && q[i] == u;
      assert q[1..][i - 1] == u;
    }
  }

  lemma HeadNotInTail(q: seq<nat>)
    requires q != [] && forall i, j :: 0 <= i < j < |q| ==> q[i] != q[j]
    ensures q[0] !in q[1..]
  {
  }

  lemma ReplacedShape(m: Memory, n: Memory, l: Layout, v: nat, page: nat)
    requires RowsInShape(m.table, l) && Replaced(m, n, v, page) && m.table[v].present
    requires |m.queue| == l.Frames()
    ensures RowsInShape(n.table, l)
  {
  }

  lemma ReplacedDistinct(m: Memory, n: Memory, v: nat, page: nat)
    requires FramesDistinct(m.table) && Replaced(m, n, v, page) && m.table[v].present
    ensures FramesDistinct(n.table)
  {
    forall a, b | 0 <= a < b < |n.table| && n.table[a].present && n.table[b].present
      && IsNumeral(n.table[a].physicalIndex, 2) && IsNumeral(n.table[b].physicalIndex, 2)
      ensures Value(n.table[a].physicalIndex, 2) != Value(n.table[b].physicalIndex, 2)
    {
      var a', b' := if a == page then v else a, if b == page then v else b;
      assert n.table[a].physicalIndex == m.table[a'].physicalIndex && m.table[a'].present;
      assert n.table[b].physicalIndex == m.table[b'].physicalIndex && m.table[b'].present;
      if a' > b' {
      }
    }
  }

  /** One access to a page, as address translation makes it: a loaded page changes
      nothing, any other page faults. */
  function Access(m: Memory, page: nat, l: Layout): (r: FaultOutcome)
    requires WellFormed(m, l) && page < |m.table|
    ensures WellFormed(r.memory, l) && r.memory.table[page].present
    ensures r.memory.table[page].physicalIndex == r.physicalIndex
  {
    if m.table[page].present then FaultOutcome(m, m.table[page].physicalIndex, None)
    else
      FaultKeepsWellFormed(m, l, page);
      FaultInstalls(m, l, page);
      PageFault(m, page, l)
  }

  predicate InTable(ps: seq<nat>, m: Memory)
  {
    forall i :: 0 <= i < |ps| ==> ps[i] < |m.table|
  }

  /** The state after accessing the pages of ps in order, and the pages evicted on the
      way, in eviction order. */
  function Run(m: Memory, ps: seq<nat>, l: Layout): (r: (Memory, seq<nat>))
    requires WellFormed(m, l) && InTable(ps, m)
    ensures WellFormed(r.0, l) && |r.0.table| == |m.table|
  {
    if ps == [] then (m, [])
    else
      var before := Run(m, ps[..|ps| - 1], l);
      var page := ps[|ps| - 1];
      var step := Access(before.0, page, l);
      FaultKeepsWellFormed(before.0, l, page);
      (step.memory, before.1 + (if step.evicted.Some? then [step.evicted.value] else []))
  }

  /** First in, first out: from a consistent state, accessing pages that are distinct
      and not loaded makes every access a fault, evicts the pages in the order they
      entered the queue, and leaves the last totalFrames pages loaded. */
  lemma {:induction false} FifoEvictionOrder(m: Memory, l: Layout, ps: seq<nat>)
    requires Consistent(m, l) && InTable(ps, m)
    requires forall i, j :: 0 <= i < j < |ps| ==> ps[i] != ps[j]
    requires forall i :: 0 <= i < |ps| ==> ps[i] !in m.queue
    ensures var r := Run(m, ps, l);
      && Consistent(r.0, l)
      && r.0.queue == (m.queue + ps)[|ps|..]
      && r.1 == (m.queue + ps)[..|ps|]
    decreases |ps|
  {
    if ps != [] {
      var k := |ps| - 1;
      var p, x := ps[..k], ps[k];
      FifoEvictionOrder(m, l, p);
      var before := Run(m, p, l);
      var q := m.queue;
      assert x !in before.0.queue by {
        NotInLater(q, p, x, k);
      }
      FaultKeepsConsistent(before.0, l, x);
      FaultAtCapacity(before.0, l, x);
      QueueShift(q, ps, k);
    }
  }

  /** The page about to be accessed is neither in the original queue nor among the
      pages already accessed, so it is not in what remains of their concatenation. */
  lemma NotInLater(q: seq<nat>, p: seq<nat>, x: nat, k: nat)
    requires x !in q && x !in p && k <= |q + p|
    ensures x !in (q + p)[k..]
  {
  }

  /** With k = |ps| - 1: shifting the head off (q + ps[..k])[k..] and pushing ps[k]
      gives (q + ps)[k+1..]; the head shifted off is (q + ps)[k]. */
  lemma QueueShift(q: seq<nat>, ps: seq<nat>, k: nat)
    requires k == |ps| - 1 && q != []
    ensures (q + ps[..k])[k..] != []
    ensures (q + ps[..k])[k..][0] == (q + ps)[k]
    ensures (q + ps[..k])[k..][1..] + [ps[k]] == (q + ps)[k + 1..]
    ensures (q + ps[..k])[..k] + [(q + ps)[k]] == (q + ps)[..k + 1]
  {
    assert ps[..k + 1] == ps;
    assert q + ps == (q + ps[..k]) + [ps[k]];
  }

  /** Every access from a consistent state leaves it consistent. */
  lemma AccessKeepsConsistent(m: Memory, l: Layout, page: nat)
    requires Consistent(m, l) && page < |m.table|
    ensures Consistent(Access(m, page, l).memory, l)
  {
    if !m.table[page].present {
      FaultKeepsConsistent(m, l, page);
    }
  }

  /** However the pages of a run are chosen, the FIFO bookkeeping survives it. */
  lemma {:induction false} RunKeepsConsistent(m: Memory, l: Layout, ps: seq<nat>)
    requires Consistent(m, l) && InTable(ps, m)
    ensures Consistent(Run(m, ps, l).0, l)
    decreases |ps|
  {
    if ps != [] {
      RunKeepsConsistent(m, l, ps[..|ps| - 1]);
      AccessKeepsConsistent(Run(m, ps[..|ps| - 1], l).0, l, ps[|ps| - 1]);
    }
  }
}
