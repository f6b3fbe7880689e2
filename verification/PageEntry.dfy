/** Page-table entries and the split of a 48-bit address into table indices. */
module PageEntry {
  import opened Arith
  import opened Bytes

  const PAGE_SIZE: nat := 4096
  const TABLE_ENTRIES: nat := 512
  const FRAME_LIMIT: nat := 0x100_0000_0000
  const NO_EXECUTE: nat := 0x8000_0000_0000_0000
  const PAGE_LIMIT: nat := 0x10_0000_0000

  /** Bits 12 to 51, the part of an address that an entry can hold. */
  function Masked(phys: u64): (r: u64)
    ensures r % PAGE_SIZE == 0 && r < FRAME_LIMIT * PAGE_SIZE
  {
    phys / PAGE_SIZE % FRAME_LIMIT * PAGE_SIZE
  }

  predicate Frame(phys: u64)
  {
    phys % PAGE_SIZE == 0 && phys < FRAME_LIMIT * PAGE_SIZE
  }

  lemma MaskedIff(phys: u64)
    ensures Masked(phys) == phys <==> Frame(phys)
  {
  }

  predicate Present(entry: u64)
  {
    entry % 2 == 1
  }

  predicate IsWritable(entry: u64)
  {
    entry / 2 % 2 == 1
  }

  predicate IsUser(entry: u64)
  {
    entry / 2 / 2 % 2 == 1
  }

  predicate IsExecutable(entry: u64)
  {
    entry < NO_EXECUTE
  }

  function Address(entry: u64): (r: u64)
  {
    Masked(entry)
  }

  function MakeEntry(phys: u64, writable: bool, user: bool, executable: bool): (e: u64)
  {
    Masked(phys) + 1 + (if writable then 2 else 0) + (if user then 4 else 0) + (if executable then 0 else NO_EXECUTE)
  }

  /** A number written as three low bits and the rest. */
  lemma LowBits(b0: nat, b1: nat, b2: nat, k: nat)
    requires b0 <= 1 && b1 <= 1 && b2 <= 1
    ensures var e := b0 + 2 * (b1 + 2 * (b2 + 2 * k));
      e % 2 == b0 && e / 2 % 2 == b1 && e / 2 / 2 % 2 == b2
  {
    var x := b2 + 2 * k;
    var y := b1 + 2 * x;
    DivModUnique(b0 + 2 * y, 2, y, b0);
    DivModUnique(y, 2, x, b1);
    DivModUnique(x, 2, k, b2);
  }

  lemma AddressBits(f: nat, low: nat, hi: nat)
    requires f < FRAME_LIMIT && low < 8 && hi <= 1
    ensures (f * 4096 + low + hi * NO_EXECUTE) / 4096 % FRAME_LIMIT == f
  {
    var frame := f + hi * 0x8_0000_0000_0000;
    DivModUnique(f * 4096 + low + hi * NO_EXECUTE, 4096, frame, low);
    DivModUnique(frame, FRAME_LIMIT, hi * 2048, f);
  }

  /** A made entry says exactly what it was made of. */
  lemma EntryParts(phys: u64, writable: bool, user: bool, executable: bool)
    ensures var e := MakeEntry(phys, writable, user, executable);
      && Present(e)
      && IsWritable(e) == writable
      && IsUser(e) == user
      && IsExecutable(e) == executable
      && Address(e) == Masked(phys)
  {
    var f := phys / PAGE_SIZE % FRAME_LIMIT;
    var w, u, hi := if writable then 1 else 0, if user then 1 else 0, if executable then 0 else 1;
    var low := 1 + 2 * (w + 2 * u);
    var k := f * 512 + hi * 0x1000_0000_0000_0000;
    var e := MakeEntry(phys, writable, user, executable);
    assert e == f * 4096 + low + hi * NO_EXECUTE;
    assert e == 1 + 2 * (w + 2 * (u + 2 * k));
    LowBits(1, w, u, k);
    AddressBits(f, low, hi);
  }

  function TableEntry(phys: u64): u64
  {
    MakeEntry(phys, true, false, true)
  }

  function LeafEntry(phys: u64, writable: bool, executable: bool): u64
  {
    MakeEntry(phys, writable, false, executable)
  }

  // ----- Indices

  // Each level takes nine more bits of the page number.

  function L1Index(virt: u64): (i: nat) ensures i < TABLE_ENTRIES { virt / PAGE_SIZE % 512 }
  function L2Index(virt: u64): (i: nat) ensures i < TABLE_ENTRIES { virt / PAGE_SIZE / 512 % 512 }
  function L3Index(virt: u64): (i: nat) ensures i < TABLE_ENTRIES { virt / PAGE_SIZE / 512 / 512 % 512 }
  function L4Index(virt: u64): (i: nat) ensures i < TABLE_ENTRIES { virt / PAGE_SIZE / 512 / 512 / 512 % 512 }

  function Indices(virt: u64): (s: seq<nat>)
    ensures |s| == 4
  {
    [L4Index(virt), L3Index(virt), L2Index(virt), L1Index(virt)]
  }

  /** The number of the 4 KiB page among the 48-bit addresses. */
  function PageOf(virt: u64): (n: nat)
    ensures n < PAGE_LIMIT
  {
    virt / PAGE_SIZE % PAGE_LIMIT
  }

  lemma PageFromIndices(virt: u64)
    ensures PageOf(virt) == ((L4Index(virt) * 512 + L3Index(virt)) * 512 + L2Index(virt)) * 512 + L1Index(virt)
  {
    var a := virt / PAGE_SIZE;
    var b := a / 512;
    var c := b / 512;
    var d := c / 512;
    var top := d / 512;
    assert a == 512 * b + a % 512;
    assert b == 512 * c + b % 512;
    assert c == 512 * d + c % 512;
    assert d == 512 * top + d % 512;
    var low := (((d % 512) * 512 + c % 512) * 512 + b % 512) * 512 + a % 512;
    assert a == PAGE_LIMIT * top + low;
    DivModUnique(a, PAGE_LIMIT, top, low);
  }

  /** Two addresses use the same table slots exactly when they lie on the same page. */
  lemma SameIndicesIffSamePage(v: u64, w: u64)
    ensures Indices(v) == Indices(w) <==> PageOf(v) == PageOf(w)
  {
    PageFromIndices(v);
    PageFromIndices(w);
    hide PageOf, L4Index, L3Index, L2Index, L1Index;
  }
}
