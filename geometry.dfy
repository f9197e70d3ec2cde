/** The configuration of a simulation run and the sizes and bit widths derived from it.
    The form holds the three sizes in kilobytes; addresses are counted in bytes. */
module Geometry {
  import opened Radix

  /** Virtual space, physical space and page size, in KB, as the form holds them. */
  datatype Config = Config(virtualKB: int, physicalKB: int, pageKB: int)

  predicate IsPow2(n: int)
    decreases if n < 0 then 0 else n
  {
    n == 1 || (n >= 2 && n % 2 == 0 && IsPow2(n / 2))
  }

  /** Math.floor(Math.log2(n)) for n >= 1; 0 below (padStart ignores a negative width). */
  function Log2(n: nat): nat
  {
    if n < 2 then 0 else 1 + Log2(n / 2)
  }

  lemma {:induction false} Pow2Log2(n: nat)
    requires IsPow2(n)
    ensures Pow(2, Log2(n)) == n
  {
    if n != 1 {
      Pow2Log2(n / 2);
    }
  }

  lemma {:induction false} IsPow2Scaled(n: nat, k: nat)
    requires IsPow2(n)
    ensures IsPow2(n * Pow(2, k))
  {
    if k > 0 {
      IsPow2Scaled(n, k - 1);
      var m := n * Pow(2, k - 1);
      assert n * Pow(2, k) == m * 2;
      DoubleIsPow2(m);
    }
  }

  lemma DoubleIsPow2(m: nat)
    requires IsPow2(m)
    ensures IsPow2(m * 2)
  {
    assert (m * 2) / 2 == m;
  }

  lemma {:induction false} Log2Pow(k: nat)
    ensures Log2(Pow(2, k)) == k
  {
    if k > 0 {
      Log2Pow(k - 1);
      Log2Double(Pow(2, k - 1));
    }
  }

  lemma Log2Double(n: nat)
    requires n >= 1
    ensures Log2(2 * n) == Log2(n) + 1
  {
    assert (2 * n) / 2 == n;
  }

  /** The guard of generatePageTable: every size positive and physical space exactly
      half of virtual space. */
  predicate SizesAccepted(c: Config)
  {
    c.virtualKB > 0 && c.physicalKB > 0 && c.pageKB > 0 && c.physicalKB * 2 == c.virtualKB
  }

  /** Sizes for which the source's floating-point divisions and logarithms are exact:
      the page size and the frame count are powers of two and the page size divides
      the physical space. */
  predicate Exact(c: Config)
  {
    SizesAccepted(c) && IsPow2(c.pageKB) && c.physicalKB % c.pageKB == 0 && IsPow2(c.physicalKB / c.pageKB)
  }

  /** totalPages: number of virtual pages. */
  function Pages(c: Config): nat
    requires Exact(c)
  {
    c.virtualKB / c.pageKB
  }

  /** totalFrames: number of physical frames. */
  function Frames(c: Config): nat
    requires Exact(c)
  {
    c.physicalKB / c.pageKB
  }

  function PageBytes(c: Config): nat
    requires Exact(c)
  {
    c.pageKB * 1024
  }

  /** Bits of an address that are the offset within a page: log2(pageSize * 1024). */
  function OffsetBits(c: Config): nat
    requires Exact(c)
  {
    Log2(c.pageKB * 1024)
  }

  /** Width of a virtual page number: log2(totalPages). */
  function PageBits(c: Config): nat
    requires Exact(c)
  {
    Log2(Pages(c))
  }

  /** Width of a physical frame number: log2(totalFrames). */
  function FrameBits(c: Config): nat
    requires Exact(c)
  {
    Log2(Frames(c))
  }

  function VirtualBits(c: Config): nat
    requires Exact(c)
  {
    PageBits(c) + OffsetBits(c)
  }

  function PhysicalBits(c: Config): nat
    requires Exact(c)
  {
    FrameBits(c) + OffsetBits(c)
  }

  /** maxAddress: the bound every address to convert must stay below. */
  function AddressLimit(c: Config): nat
    requires Exact(c)
  {
    c.virtualKB * 1024
  }

  function PhysicalLimit(c: Config): nat
    requires Exact(c)
  {
    c.physicalKB * 1024
  }

  /** The sizes of an exact configuration as powers of two: a frame number has
      frameBits bits, a page number one more, and a page 2^offsetBits bytes. */
  datatype Layout = Layout(frameBits: nat, offsetBits: nat)
  {
    function Frames(): nat { Pow(2, frameBits) }
    function PageBits(): nat { frameBits + 1 }
    function Pages(): nat { Pow(2, frameBits + 1) }
    function PageBytes(): nat { Pow(2, offsetBits) }
    function VirtualBits(): nat { frameBits + 1 + offsetBits }
    function PhysicalBits(): nat { frameBits + offsetBits }
    function AddressLimit(): nat { Pow(2, frameBits + 1 + offsetBits) }
    function PhysicalLimit(): nat { Pow(2, frameBits + offsetBits) }
  }

  function LayoutOf(c: Config): Layout
    requires Exact(c)
  {
    Layout(FrameBits(c), OffsetBits(c))
  }

  /** The layout of a configuration has the configuration's own sizes and widths. */
  lemma LayoutMatches(c: Config)
    requires Exact(c)
    ensures var l := LayoutOf(c);
      && l.Frames() == Frames(c) && l.Pages() == Pages(c) && l.PageBytes() == PageBytes(c)
      && l.PageBits() == PageBits(c) && l.VirtualBits() == VirtualBits(c) && l.PhysicalBits() == PhysicalBits(c)
      && l.AddressLimit() == AddressLimit(c) && l.PhysicalLimit() == PhysicalLimit(c)
  {
    GeometryFacts(c);
    var l := LayoutOf(c);
    PowAdd(2, FrameBits(c) + 1, OffsetBits(c));
    PowAdd(2, FrameBits(c), OffsetBits(c));
  }

  /** The address spaces of a layout are whole pages. */
  lemma LayoutSpaces(l: Layout)
    ensures l.AddressLimit() == l.Pages() * l.PageBytes()
    ensures l.PhysicalLimit() == l.Frames() * l.PageBytes()
    ensures 1 <= l.Frames() < l.Pages() && l.PageBytes() >= 1
    ensures l.PhysicalLimit() < l.AddressLimit()
  {
    PowAdd(2, l.frameBits + 1, l.offsetBits);
    PowAdd(2, l.frameBits, l.offsetBits);
    MulMonotonic(l.PageBytes(), l.Frames(), l.Pages());
    MulAtLeast(l.PageBytes(), l.Frames());
  }

  /** The quotient and remainder of a by d are the only q and r with a == q * d + r
      and 0 <= r < d. */
  lemma DivModUnique(a: nat, d: nat, q: nat, r: nat)
    requires d > 0 && a == q * d + r && r < d
    ensures a / d == q && a % d == r
  {
    var q', r' := a / d, a % d;
    assert a == q' * d + r';
    if q < q' {
      assert (q' - q) * d == r - r';
      MulAtLeast(d, q' - q);
    } else if q > q' {
      assert (q - q') * d == r' - r;
      MulAtLeast(d, q - q');
    }
  }

  /** An address below n pages has a page number below n. */
  lemma PageOfAddress(a: nat, d: nat, n: nat)
    requires d > 0 && a < n * d
    ensures a / d < n && a == a / d * d + a % d && a % d < d
  {
    if a / d >= n {
      MulMonotonic(d, n, a / d);
    }
  }

  /** Page p at offset o, below n pages, is an address below n pages. */
  lemma AddressOfPage(p: nat, o: nat, d: nat, n: nat)
    requires o < d && p < n
    ensures p * d + o < n * d
  {
    MulMonotonic(d, p + 1, n);
  }

  /** The derived sizes of an exact configuration fit together: twice as many pages as
      frames, each count and the page size a power of two, one bit more for a virtual
      page number than for a frame number, and the spaces are whole pages. */
  lemma GeometryFacts(c: Config)
    requires Exact(c)
    ensures Frames(c) >= 1 && Pages(c) == 2 * Frames(c)
    ensures Pow(2, OffsetBits(c)) == PageBytes(c)
    ensures Pow(2, FrameBits(c)) == Frames(c) && Pow(2, PageBits(c)) == Pages(c)
    ensures PageBits(c) == FrameBits(c) + 1
    ensures Frames(c) * PageBytes(c) == PhysicalLimit(c)
    ensures Pages(c) * PageBytes(c) == AddressLimit(c)
  {
    var f := Frames(c);
    SpacesAreWholePages(c.physicalKB, c.pageKB);
    DivOfProduct(2 * f, c.pageKB);
    Pow2Log2(f);
    assert IsPow2(2 * f);
    Pow2Log2(2 * f);
    Log2Double(f);
    assert Pow(2, 10) == 1024;
    IsPow2Scaled(c.pageKB, 10);
    Pow2Log2(c.pageKB * 1024);
    Scale1024(f, c.pageKB);
    Scale1024(2 * f, c.pageKB);
  }

  lemma SpacesAreWholePages(physical: nat, page: nat)
    requires page > 0 && physical % page == 0
    ensures physical == physical / page * page
    ensures physical * 2 == (2 * (physical / page)) * page
  {
  }

  lemma Scale1024(n: nat, page: nat)
    ensures n * (page * 1024) == (n * page) * 1024
  {
  }

  lemma DivOfProduct(a: nat, b: nat)
    requires b > 0
    ensures (a * b) / b == a
  {
    var q, r := (a * b) / b, (a * b) % b;
    assert a * b == q * b + r && 0 <= r < b;
    if q < a {
      assert (a - q) * b == r;
      MulAtLeast(b, a - q);
    } else if q > a {
      assert (q - a) * b == -r;
      MulAtLeast(b, q - a);
    }
  }

  lemma MulAtLeast(b: nat, k: nat)
    requires k >= 1
    ensures k * b >= b
  {
  }
}
