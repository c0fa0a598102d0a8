/** How kernel/memory.c slices a virtual address into four table indices. */
module Address {
  import opened Common
  import opened FreeList

  const FANOUT: nat := 512

  /** A virtual page, as the index it selects at each of the four levels (level 4 first). */
  datatype Page = Page(i4: nat, i3: nat, i2: nat, i1: nat) {
    ghost predicate Valid() {
      i4 < FANOUT && i3 < FANOUT && i2 < FANOUT && i1 < FANOUT
    }

    function At(i: nat): nat {
      match i
      case 0 => i4
      case 1 => i3
      case 2 => i2
      case _ => i1
    }
  }

  /** The amount vm_map shifts by at loop step i, as a power of two: 2^(39 - 9 * i). */
  function Unit(i: nat): nat
    requires i <= 3
  {
    if i == 0 then 0x80_0000_0000 else if i == 1 then 0x4000_0000 else if i == 2 then 0x20_0000 else 0x1000
  }

  function Index(a: nat, i: nat): (k: nat)
    requires i <= 3
    ensures k < FANOUT
  {
    a / Unit(i) % FANOUT
  }

  function PageOf(a: nat): (p: Page)
    ensures p.Valid()
  {
    Page(Index(a, 0), Index(a, 1), Index(a, 2), Index(a, 3))
  }

  /** Bits 12 to 47: the part of an address that selects a page. */
  function PageNumber(a: nat): nat {
    a / PAGESIZE % 0x10_0000_0000
  }

  /** The four indices are the base-512 digits of the page number. */
  lemma IndicesAreDigits(a: nat)
    ensures PageNumber(a) ==
            ((Index(a, 0) * FANOUT + Index(a, 1)) * FANOUT + Index(a, 2)) * FANOUT + Index(a, 3)
  {
    var n := a / PAGESIZE;
    assert a / Unit(2) == n / 512;
    assert a / Unit(1) == n / 512 / 512;
    assert a / Unit(0) == n / 512 / 512 / 512;
  }

  lemma DigitsAreUnique(x: nat, d: nat, y: nat, e: nat)
    requires d < FANOUT && e < FANOUT && x * FANOUT + d == y * FANOUT + e
    ensures x == y && d == e
  {
  }

  /** Slicing an address into indices is a bijection between page numbers and index quadruples. */
  lemma IndicesIdentifyThePage(a: nat, b: nat)
    ensures PageNumber(a) == PageNumber(b) <==> PageOf(a) == PageOf(b)
  {
    IndicesAreDigits(a);
    IndicesAreDigits(b);
    if PageNumber(a) == PageNumber(b) {
      var p, q := PageOf(a), PageOf(b);
      DigitsAreUnique((p.i4 * FANOUT + p.i3) * FANOUT + p.i2, p.i1, (q.i4 * FANOUT + q.i3) * FANOUT + q.i2, q.i1);
      DigitsAreUnique(p.i4 * FANOUT + p.i3, p.i2, q.i4 * FANOUT + q.i3, q.i2);
      DigitsAreUnique(p.i4, p.i3, q.i4, q.i3);
    }
  }

  lemma EveryQuadrupleHasAPage(p: Page)
    requires p.Valid()
    ensures PageOf((((p.i4 * FANOUT + p.i3) * FANOUT + p.i2) * FANOUT + p.i1) * PAGESIZE) == p
  {
    var n3 := p.i4 * FANOUT + p.i3;
    var n2 := n3 * FANOUT + p.i2;
    var n := n2 * FANOUT + p.i1;
    var a := n * PAGESIZE;
    Digit(n2, p.i1);
    Digit(n3, p.i2);
    Digit(p.i4, p.i3);
    assert a / Unit(3) == n;
    assert a / Unit(2) == n / FANOUT;
    assert a / Unit(1) == n2 / FANOUT;
    assert a / Unit(0) == n3 / FANOUT;
  }

  lemma Digit(x: nat, d: nat)
    requires d < FANOUT
    ensures (x * FANOUT + d) / FANOUT == x && (x * FANOUT + d) % FANOUT == d
  {
  }

  /** Bit 47 of an address, the topmost bit that selects a page, is the top bit of its level-4 index. */
  lemma TopIndexBit(a: nat)
    ensures a % 0x1_0000_0000_0000 < 0x8000_0000_0000 <==> Index(a, 0) < 256
  {
    var q := a / 0x80_0000_0000;
    assert a == (q / 512) * 0x1_0000_0000_0000 + ((q % 512) * 0x80_0000_0000 + a % 0x80_0000_0000);
    SmallRest(a, q / 512, (q % 512) * 0x80_0000_0000 + a % 0x80_0000_0000);
  }

  lemma SmallRest(a: nat, k: nat, r: nat)
    requires a == k * 0x1_0000_0000_0000 + r && r < 0x1_0000_0000_0000
    ensures a % 0x1_0000_0000_0000 == r
  {
  }
}
