/** The virtual memory manager: tables are created on the way to a page, and every
    operation is stated by its effect on the flat page map. */
module VmManager {
  import opened Bytes
  import opened Wrappers
  import opened PageEntry
  import opened VmTables

  datatype VmError =
    | NotInitialized
    | InvalidPageCount
    | UnalignedVirtualAddress
    | UnalignedPhysicalAddress
    | AddressOverflow
    | AlreadyMapped
    | OutOfPhysicalPages

  /** Same leaf entry under every index vector. */
  ghost predicate SameLeaves(a: seq<Table>, b: seq<Table>)
  {
    forall x: seq<nat> :: |x| == 4 && x[3] < TABLE_ENTRIES ==> Leaf(a, x) == Leaf(b, x)
  }

  /** The flat map `b` is `a` with the page at `indices` set to `entry`. */
  ghost predicate OneLeaf(a: seq<Table>, b: seq<Table>, indices: seq<nat>, entry: u64)
  {
    forall x: seq<nat> :: |x| == 4 && x[3] < TABLE_ENTRIES ==>
      Leaf(b, x) == if x == indices then Some(entry) else Leaf(a, x)
  }

  /** The frame for page `k` of a range: physical addresses wrap around, unchecked. */
  function PhysAt(physStart: u64, k: nat): u64
  {
    (physStart + k * PAGE_SIZE) % U64_LIMIT
  }

  /** The `k`-th page of a range is mapped to the `k`-th frame. */
  ghost predicate PageMapped(l1: seq<Table>, virtStart: u64, physStart: u64, k: nat, writable: bool, executable: bool)
  {
    && virtStart + k * PAGE_SIZE < U64_LIMIT
    && Leaf(l1, Indices(virtStart + k * PAGE_SIZE)) == Some(LeafEntry(PhysAt(physStart, k), writable, executable))
  }

  ghost predicate PageAt(x: seq<nat>, virtStart: u64, k: nat)
  {
    virtStart + k * PAGE_SIZE < U64_LIMIT && x == Indices(virtStart + k * PAGE_SIZE)
  }

  /** Only pages of the range differ. */
  ghost predicate OnlyRange(a: seq<Table>, b: seq<Table>, virtStart: u64, pageCount: nat)
  {
    forall x: seq<nat> :: |x| == 4 && x[3] < TABLE_ENTRIES && Leaf(a, x) != Leaf(b, x) ==>
      exists k: nat :: k < pageCount && PageAt(x, virtStart, k)
  }

  ghost predicate NothingReplaced(a: seq<Table>, b: seq<Table>)
  {
    forall x: seq<nat> :: |x| == 4 && x[3] < TABLE_ENTRIES && Leaf(a, x).Some? ==> Leaf(b, x) == Leaf(a, x)
  }

  function AlignDown(value: u64): (r: u64)
    ensures r % PAGE_SIZE == 0 && r <= value < r + PAGE_SIZE
  {
    value / PAGE_SIZE * PAGE_SIZE
  }

  /** Rounds up; the addition saturates, so the last page of the address space is cut off. */
  function AlignUp(value: u64): (r: u64)
    ensures r % PAGE_SIZE == 0
  {
    AlignDown(if value + PAGE_SIZE - 1 >= U64_LIMIT then U64_LIMIT - 1 else value + PAGE_SIZE - 1)
  }

  /** The page of `a` is mapped to itself, unless it is the very last page of the
      address space, which the saturating rounding leaves out. */
  ghost predicate IdentityMapped(l1: seq<Table>, a: u64, writable: bool, executable: bool)
  {
    a >= U64_LIMIT - PAGE_SIZE || Leaf(l1, Indices(a)) == Some(LeafEntry(AlignDown(a), writable, executable))
  }

  lemma AlignUpCovers(value: u64)
    ensures AlignUp(value) >= value || AlignUp(value) == U64_LIMIT - PAGE_SIZE
  {
  }

  class VirtualMemoryManager {
    var root: Page
    var l3: seq<Table>
    var l2: seq<Table>
    var l1: seq<Table>
    var initialized: bool
    var committed: bool
    /** The pages the physical allocator is going to hand out, in order. */
    var supply: seq<u64>

    ghost function Tables(): Space
      reads this
    {
      Space([Table([], root)], l3, l2, l1)
    }

    /** Everything in use or still to come is a distinct frame. */
    ghost predicate Fresh()
      reads this
    {
      && (forall i :: 0 <= i < |supply| ==> Frame(supply[i]))
      && (forall i, j :: 0 <= i < j < |supply| ==> supply[i] != supply[j])
      && (forall i, k :: 0 <= i < |supply| && 0 <= k < |l3| ==> l3[k].page.phys != supply[i])
      && (forall i, k :: 0 <= i < |supply| && 0 <= k < |l2| ==> l2[k].page.phys != supply[i])
      && (forall i, k :: 0 <= i < |supply| && 0 <= k < |l1| ==> l1[k].page.phys != supply[i])
    }

    ghost predicate Valid()
      reads this
    {
      Tree(Tables()) && Fresh()
    }

    constructor (rootPhys: u64, supply: seq<u64>)
      requires Frame(rootPhys) && (forall i :: 0 <= i < |supply| ==> Frame(supply[i]))
      requires (forall i, j :: 0 <= i < j < |supply| ==> supply[i] != supply[j])
      ensures Valid() && initialized && this.supply == supply
      ensures forall x: seq<nat> :: |x| == 4 && x[3] < TABLE_ENTRIES ==> Leaf(l1, x) == None
    {
      root := Page(rootPhys, seq(TABLE_ENTRIES, _ => 0));
      l3, l2, l1, initialized, committed := [], [], [], true, false;
      this.supply := supply;
    }

    method AllocatePage() returns (r: Option<u64>)
      modifies this`supply
      ensures old(supply) == [] ==> r == None && supply == []
      ensures old(supply) != [] ==> r == Some(old(supply)[0]) && supply == old(supply)[1..]
    {
      if supply == [] {
        return None;
      }
      r := Some(supply[0]);
      supply := supply[1..];
    }

    method GetOrCreateL3(x4: nat) returns (r: Result<nat, VmError>)
      requires Valid() && x4 < TABLE_ENTRIES
      modifies this`root, this`l3, this`supply, this`committed
      ensures Valid() && |supply| >= |old(supply)| - 1 && (r.Err? ==> r == Err(OutOfPhysicalPages) && old(supply) == [])
      ensures r.Ok? ==> r.value < |l3| && l3[r.value].key == [x4]
    {
      hide Level, Linked, FindKey, Frame;
      var key := [x4];
      var at := FindKey(l3, key);
      if at < |l3| {
        return Ok(at);
      }
      var phys := AllocatePage();
      if phys.None? {
        return Err(OutOfPhysicalPages);
      }
      ghost var above := [Table([], root)];
      assert above[0].key + [x4] == key;
      assert NewAddress(l3, phys.value);
      AttachLinked(above, 0, x4, l3, phys.value, 0);
      EntryKeepsLevel(above, 0, x4, TableEntry(phys.value), 0);
      AppendKeepsLevel(l3, key, phys.value);
      AttachKeepsLinkBelow(l3, key, phys.value, l2);
      root := Page(root.phys, root.entries[x4 := TableEntry(phys.value)]);
      committed := false;
      l3 := l3 + [EmptyTable(key, phys.value)];
      assert [Table([], root)] == WithEntry(above, 0, x4, TableEntry(phys.value));
      r := Ok(|l3| - 1);
    }

    method GetOrCreateL2(x4: nat, x3: nat, parent: nat) returns (r: Result<nat, VmError>)
      requires Valid() && x3 < TABLE_ENTRIES && parent < |l3| && l3[parent].key == [x4]
      modifies this`l3, this`l2, this`supply, this`committed
      ensures Valid() && |supply| >= |old(supply)| - 1 && (r.Err? ==> r == Err(OutOfPhysicalPages) && old(supply) == [])
      ensures r.Ok? ==> r.value < |l2| && l2[r.value].key == [x4, x3]
    {
      hide Level, Linked, FindKey, Frame, WithEntry;
      var key := [x4, x3];
      var at := FindKey(l2, key);
      if at < |l2| {
        return Ok(at);
      }
      var phys := AllocatePage();
      if phys.None? {
        return Err(OutOfPhysicalPages);
      }
      assert l3[parent].key + [x3] == key;
      assert NewAddress(l2, phys.value);
      AttachLinked(l3, parent, x3, l2, phys.value, 1);
      EntryKeepsLevel(l3, parent, x3, TableEntry(phys.value), 1);
      EntryKeepsLinkAbove([Table([], root)], l3, parent, x3, TableEntry(phys.value));
      AppendKeepsLevel(l2, key, phys.value);
      AttachKeepsLinkBelow(l2, key, phys.value, l1);
      l3 := WithEntry(l3, parent, x3, TableEntry(phys.value));
      committed := false;
      l2 := l2 + [EmptyTable(key, phys.value)];
      r := Ok(|l2| - 1);
    }

    method GetOrCreateL1(x4: nat, x3: nat, x2: nat, parent: nat) returns (r: Result<nat, VmError>)
      requires Valid() && x2 < TABLE_ENTRIES && parent < |l2| && l2[parent].key == [x4, x3]
      modifies this`l2, this`l1, this`supply, this`committed
      ensures Valid() && |supply| >= |old(supply)| - 1 && (r.Err? ==> r == Err(OutOfPhysicalPages) && old(supply) == [])
      ensures r.Ok? ==> r.value < |l1| && l1[r.value].key == [x4, x3, x2]
      ensures SameLeaves(old(l1), l1)
    {
      hide Level, Linked, FindKey, Frame, WithEntry, Leaf;
      var key := [x4, x3, x2];
      var at := FindKey(l1, key);
      if at < |l1| {
        return Ok(at);
      }
      var phys := AllocatePage();
      if phys.None? {
        return Err(OutOfPhysicalPages);
      }
      assert l2[parent].key + [x2] == key;
      assert NewAddress(l1, phys.value);
      AttachLinked(l2, parent, x2, l1, phys.value, 2);
      EntryKeepsLevel(l2, parent, x2, TableEntry(phys.value), 2);
      EntryKeepsLinkAbove(l3, l2, parent, x2, TableEntry(phys.value));
      AppendKeepsLevel(l1, key, phys.value);
      forall x: seq<nat> | |x| == 4 && x[3] < TABLE_ENTRIES
        ensures Leaf(l1 + [EmptyTable(key, phys.value)], x) == Leaf(l1, x)
      {
        NewTableKeepsLeaves(l1, key, phys.value, x);
      }
      l2 := WithEntry(l2, parent, x2, TableEntry(phys.value));
      committed := false;
      l1 := l1 + [EmptyTable(key, phys.value)];
      r := Ok(|l1| - 1);
    }

    /** Maps one page. Success and repetition leave the page mapped to the entry,
        a conflict and exhaustion change no page at all. */
    method EnsureLeafMapping(virt: u64, phys: u64, writable: bool, executable: bool) returns (r: Result<bool, VmError>)
      requires Valid()
      modifies this`root, this`l3, this`l2, this`l1, this`supply, this`committed
      ensures Valid()
      ensures r == Ok(true) ==> Leaf(old(l1), Indices(virt)) == None
      ensures r == Ok(true) ==> OneLeaf(old(l1), l1, Indices(virt), LeafEntry(phys, writable, executable))
      ensures r == Ok(false) ==> Leaf(old(l1), Indices(virt)) == Some(LeafEntry(phys, writable, executable))
      ensures r == Err(AlreadyMapped) ==>
        && Leaf(old(l1), Indices(virt)).Some?
        && Leaf(old(l1), Indices(virt)) != Some(LeafEntry(phys, writable, executable))
      ensures r != Ok(true) ==> SameLeaves(old(l1), l1)
      ensures r.Err? && r != Err(AlreadyMapped) ==> r == Err(OutOfPhysicalPages) && |old(supply)| < 3
      ensures |supply| >= |old(supply)| - 3 && initialized == old(initialized)
    {
      hide Valid, Leaf, MakeEntry, L4Index, L3Index, L2Index, L1Index;
      var x4, x3, x2 := L4Index(virt), L3Index(virt), L2Index(virt);
      var i3 :- GetOrCreateL3(x4);
      var i2 :- GetOrCreateL2(x4, x3, i3);
      var i1 :- GetOrCreateL1(x4, x3, x2, i2);
      EntryParts(phys, writable, false, executable);
      r := WriteLeaf(i1, virt, LeafEntry(phys, writable, executable));
    }

    /** Fills an empty slot of the last-level table that belongs to `virt`. */
    method WriteLeaf(at: nat, virt: u64, entry: u64) returns (r: Result<bool, VmError>)
      requires Valid() && at < |l1| && l1[at].key == Indices(virt)[..3] && Present(entry)
      modifies this`l1, this`committed
      ensures Valid()
      ensures r == Ok(true) ==> Leaf(old(l1), Indices(virt)) == None && OneLeaf(old(l1), l1, Indices(virt), entry)
      ensures r == Ok(false) ==> Leaf(old(l1), Indices(virt)) == Some(entry)
      ensures r.Err? ==> r == Err(AlreadyMapped)
      ensures r.Err? ==> Leaf(old(l1), Indices(virt)).Some? && Leaf(old(l1), Indices(virt)) != Some(entry)
      ensures r != Ok(true) ==> SameLeaves(old(l1), l1)
    {
      hide Tree, Leaf, WithEntry, Present, L4Index, L3Index, L2Index, L1Index, Frame;
      var slot := L1Index(virt);
      var existing := l1[at].page.entries[slot];
      assert l1[at].key + [slot] == Indices(virt);
      ValidLevel1();
      LeafAt(l1, at, slot, Indices(virt));
      if Present(existing) {
        if existing == entry {
          return Ok(false);
        }
        return Err(AlreadyMapped);
      }
      ghost var before := l1;
      forall x: seq<nat> | |x| == 4 && x[3] < TABLE_ENTRIES
        ensures Leaf(WithEntry(before, at, slot, entry), x) ==
          if x == Indices(virt) then Some(entry) else Leaf(before, x)
      {
        EntryIsLeaf(before, at, slot, entry, x);
      }
      LeafWriteKeepsValid(at, slot, entry);
      l1 := WithEntry(l1, at, slot, entry);
      committed := false;
      r := Ok(true);
    }

    /** Maps consecutive pages to consecutive frames. On success every page of the
        range is mapped as asked; in every case pages outside it stay as they were
        and no mapping is ever replaced. Given enough pages for tables it succeeds exactly if
        no page of the range is in the way, and it counts the pages that are new. */
    method MapFixedRange(virtStart: u64, physStart: u64, pageCount: nat, writable: bool, executable: bool)
      returns (r: Result<nat, VmError>, ghost added: set<seq<nat>>)
      requires Valid()
      modifies this`root, this`l3, this`l2, this`l1, this`supply, this`committed
      ensures Valid()
      ensures r.Ok? ==> forall k: nat :: k < pageCount ==> PageMapped(l1, virtStart, physStart, k, writable, executable)
      ensures OnlyRange(old(l1), l1, virtStart, pageCount) && NothingReplaced(old(l1), l1)
      ensures Added(old(l1), l1, added) && (r.Ok? ==> r.value == |added|)
      ensures r == Err(NotInitialized) <==> !initialized
      ensures r == Err(UnalignedVirtualAddress) <==> initialized && pageCount > 0 && virtStart % PAGE_SIZE != 0
      ensures r == Err(UnalignedPhysicalAddress) <==>
        initialized && pageCount > 0 && virtStart % PAGE_SIZE == 0 && physStart % PAGE_SIZE != 0
      ensures r == Err(AddressOverflow) <==>
        && initialized && pageCount > 0 && virtStart % PAGE_SIZE == 0 && physStart % PAGE_SIZE == 0
        && virtStart + pageCount * PAGE_SIZE >= U64_LIMIT
      ensures r == Err(AlreadyMapped) ==> !NoConflict(old(l1), virtStart, physStart, pageCount, writable, executable)
      ensures r.Ok? ==> NoConflict(old(l1), virtStart, physStart, pageCount, writable, executable)
      ensures r == Err(OutOfPhysicalPages) ==> |old(supply)| < 3 * pageCount
      ensures r.Err? ==> r.error != InvalidPageCount
    {
      hide Valid, Leaf, MakeEntry, Indices, PageMapped, PhysAt, OnlyRange, NothingReplaced, OneLeaf, SameLeaves, Batch,
        NoConflict, Added, LeafStep;
      added := {};
      NoBatch(l1, virtStart, physStart, writable, executable);
      BatchOnly(l1, l1, virtStart, physStart, 0, pageCount, writable, executable, {});
      BatchFits(l1, l1, virtStart, physStart, 0, writable, executable, {});
      if !initialized {
        return Err(NotInitialized), {};
      }
      if pageCount == 0 {
        return Ok(0), {};
      }
      if virtStart % PAGE_SIZE != 0 {
        return Err(UnalignedVirtualAddress), {};
      }
      if physStart % PAGE_SIZE != 0 {
        return Err(UnalignedPhysicalAddress), {};
      }
      if virtStart + pageCount * PAGE_SIZE >= U64_LIMIT {
        return Err(AddressOverflow), {};
      }
      var newlyMapped := 0;
      for i := 0 to pageCount
        invariant Valid() && |supply| >= |old(supply)| - 3 * i && newlyMapped == |added|
        invariant initialized == old(initialized)
        invariant Batch(old(l1), l1, virtStart, physStart, i, writable, executable, added)
      {
        ghost var before, was := l1, added;
        var mapped := EnsureLeafMapping(virtStart + i * PAGE_SIZE, PhysAt(physStart, i), writable, executable);
        StepIs(before, l1, virtStart + i * PAGE_SIZE, PhysAt(physStart, i), writable, executable, mapped);
        BatchStep(old(l1), before, l1, virtStart, physStart, i, writable, executable, added, mapped);
        if mapped.Err? {
          BatchOnly(old(l1), l1, virtStart, physStart, i, pageCount, writable, executable, added);
          if mapped == Err(AlreadyMapped) {
            BatchConflict(old(l1), before, virtStart, physStart, i, pageCount, writable, executable, added);
          }
          return Err(mapped.error), added;
        }
        if mapped.value {
          newlyMapped := newlyMapped + 1;
          added := added + {Indices(virtStart + i * PAGE_SIZE)};
        }
      }
      BatchOnly(old(l1), l1, virtStart, physStart, pageCount, pageCount, writable, executable, added);
      BatchFits(old(l1), l1, virtStart, physStart, pageCount, writable, executable, added);
      r := Ok(newlyMapped);
    }

    /** Maps every page that touches `[start, end)` to the frame of the same address. */
    method MapIdentityRange(start: u64, end: u64, writable: bool, executable: bool)
      returns (r: Result<nat, VmError>, ghost added: set<seq<nat>>)
      requires Valid()
      modifies this`root, this`l3, this`l2, this`l1, this`supply, this`committed
      ensures Valid() && NothingReplaced(old(l1), l1)
      ensures r.Ok? ==> forall a: u64 :: start <= a < end ==> IdentityMapped(l1, a, writable, executable)
      ensures OnlyRange(old(l1), l1, AlignDown(start), PagesBetween(start, end))
      ensures Added(old(l1), l1, added) && (r.Ok? ==> r.value == |added|)
      ensures r == Err(NotInitialized) <==> !initialized
      ensures initialized && r.Ok? ==>
        NoConflict(old(l1), AlignDown(start), AlignDown(start), PagesBetween(start, end), writable, executable)
      ensures r.Err? ==> r.error in [NotInitialized, AlreadyMapped, OutOfPhysicalPages]
      ensures r == Err(AlreadyMapped) ==>
        !NoConflict(old(l1), AlignDown(start), AlignDown(start), PagesBetween(start, end), writable, executable)
      ensures r == Err(OutOfPhysicalPages) ==> |old(supply)| < 3 * PagesBetween(start, end)
    {
      hide Valid, Leaf, MakeEntry, Indices, OnlyRange, NothingReplaced, OneLeaf, SameLeaves, AlignUp, Batch, NoConflict,
        Added, LeafStep, IdentityMapped;
      added := {};
      var virtStart := AlignDown(start);
      ghost var count := PagesBetween(start, end);
      NoBatch(l1, virtStart, virtStart, writable, executable);
      BatchOnly(l1, l1, virtStart, virtStart, 0, count, writable, executable, {});
      if !initialized {
        return Err(NotInitialized), {};
      }
      var virtEnd := AlignUp(end);
      AlignUpCovers(end);
      BatchFits(l1, l1, virtStart, virtStart, 0, writable, executable, {});
      if virtEnd <= virtStart {
        NothingBetween(l1, start, end, writable, executable);
        return Ok(0), {};
      }
      var newlyMapped := 0;
      var current := virtStart;
      ghost var i := 0;
      while current < virtEnd
        invariant Valid() && |supply| >= |old(supply)| - 3 * i && newlyMapped == |added|
        invariant initialized == old(initialized) && i <= count
        invariant current == virtStart + i * PAGE_SIZE && virtEnd == virtStart + count * PAGE_SIZE
        invariant Batch(old(l1), l1, virtStart, virtStart, i, writable, executable, added)
      {
        ghost var before := l1;
        var mapped := EnsureLeafMapping(current, current, writable, executable);
        StepIs(before, l1, current, current, writable, executable, mapped);
        BatchStep(old(l1), before, l1, virtStart, virtStart, i, writable, executable, added, mapped);
        if mapped.Err? {
          BatchOnly(old(l1), l1, virtStart, virtStart, i, count, writable, executable, added);
          if mapped == Err(AlreadyMapped) {
            BatchConflict(old(l1), before, virtStart, virtStart, i, count, writable, executable, added);
          }
          return Err(mapped.error), added;
        }
        if mapped.value {
          newlyMapped := newlyMapped + 1;
          added := added + {Indices(current)};
        }
        current := current + PAGE_SIZE;
        i := i + 1;
      }
      BatchOnly(old(l1), l1, virtStart, virtStart, count, count, writable, executable, added);
      BatchFits(old(l1), l1, virtStart, virtStart, count, writable, executable, added);
      BatchIsIdentity(old(l1), l1, start, end, writable, executable, added);
      r := Ok(newlyMapped);
    }

    lemma ValidLevel1()
      requires Valid()
      ensures Level(l1, 3)
    {
    }

    lemma LeafWriteKeepsValid(p: nat, x: nat, entry: u64)
      requires Valid() && p < |l1| && x < TABLE_ENTRIES
      ensures Tree(Tables().(l1 := WithEntry(l1, p, x, entry)))
    {
      EntryKeepsLevel(l1, p, x, entry, 3);
      EntryKeepsLinkAbove(l2, l1, p, x, entry);
    }
  }

  lemma LeafAt(l1: seq<Table>, p: nat, x: nat, indices: seq<nat>)
    requires Level(l1, 3) && p < |l1| && x < TABLE_ENTRIES && indices == l1[p].key + [x]
    ensures |indices| == 4
    ensures Leaf(l1, indices) == if Present(l1[p].page.entries[x]) then Some(l1[p].page.entries[x]) else None
  {
    hide Present, Frame;
    assert indices[..3] == l1[p].key;
    FindKeyIs(l1, 3, p);
  }

  /** What `EnsureLeafMapping` says about the flat map. */
  ghost predicate LeafStep(before: seq<Table>, after: seq<Table>, virt: u64, phys: u64, writable: bool,
                           executable: bool, r: Result<bool, VmError>)
  {
    && (r == Ok(true) ==> Leaf(before, Indices(virt)) == None)
    && (r == Ok(true) ==> OneLeaf(before, after, Indices(virt), LeafEntry(phys, writable, executable)))
    && (r == Ok(false) ==> Leaf(before, Indices(virt)) == Some(LeafEntry(phys, writable, executable)))
    && (r != Ok(true) ==> SameLeaves(before, after))
    && (r == Err(AlreadyMapped) ==>
          && Leaf(before, Indices(virt)).Some?
          && Leaf(before, Indices(virt)) != Some(LeafEntry(phys, writable, executable)))
  }

  lemma StepIs(before: seq<Table>, after: seq<Table>, virt: u64, phys: u64, writable: bool, executable: bool,
               r: Result<bool, VmError>)
    requires r == Ok(true) ==> Leaf(before, Indices(virt)) == None
    requires r == Ok(true) ==> OneLeaf(before, after, Indices(virt), LeafEntry(phys, writable, executable))
    requires r == Ok(false) ==> Leaf(before, Indices(virt)) == Some(LeafEntry(phys, writable, executable))
    requires r != Ok(true) ==> SameLeaves(before, after)
    requires r == Err(AlreadyMapped) ==>
      && Leaf(before, Indices(virt)).Some?
      && Leaf(before, Indices(virt)) != Some(LeafEntry(phys, writable, executable))
    ensures LeafStep(before, after, virt, phys, writable, executable, r)
  {
  }

  // ----- A batch of pages

  /** `added` are exactly the pages that are new. */
  ghost predicate Added(first: seq<Table>, now: seq<Table>, added: set<seq<nat>>)
  {
    && (forall x :: x in added ==> |x| == 4 && x[3] < TABLE_ENTRIES && Leaf(first, x) == None && Leaf(now, x).Some?)
    && (forall x: seq<nat> :: |x| == 4 && x[3] < TABLE_ENTRIES && x !in added ==> Leaf(now, x) == Leaf(first, x))
  }

  ghost function PageIndices(virtStart: u64, k: nat): seq<nat>
  {
    if virtStart + k * PAGE_SIZE < U64_LIMIT then Indices(virtStart + k * PAGE_SIZE) else []
  }

  ghost function Wanted(physStart: u64, k: nat, writable: bool, executable: bool): u64
  {
    LeafEntry(PhysAt(physStart, k), writable, executable)
  }

  /** No page of the range is in the way: each is free or already mapped as asked, and two
      pages that share a place ask for the same. */
  ghost predicate NoConflict(l1: seq<Table>, virtStart: u64, physStart: u64, n: nat, writable: bool, executable: bool)
  {
    && (forall k: nat :: k < n && |PageIndices(virtStart, k)| == 4 && PageIndices(virtStart, k)[3] < TABLE_ENTRIES ==>
          Leaf(l1, PageIndices(virtStart, k)) in {None, Some(Wanted(physStart, k, writable, executable))})
    && (forall j: nat, k: nat :: j < k < n && PageIndices(virtStart, j) == PageIndices(virtStart, k) ==>
          Wanted(physStart, j, writable, executable) == Wanted(physStart, k, writable, executable))
  }

  /** The first `i` pages of a range have been mapped, starting from `first`. */
  ghost predicate Batch(first: seq<Table>, now: seq<Table>, virtStart: u64, physStart: u64, i: nat, writable: bool,
                        executable: bool, added: set<seq<nat>>)
  {
    && Added(first, now, added)
    && (forall k: nat :: k < i ==> PageMapped(now, virtStart, physStart, k, writable, executable))
    && (forall x :: x in added ==> exists k: nat :: k < i && PageAt(x, virtStart, k))
  }

  lemma NoBatch(l1: seq<Table>, virtStart: u64, physStart: u64, writable: bool, executable: bool)
    ensures Batch(l1, l1, virtStart, physStart, 0, writable, executable, {})
  {
    hide Leaf, Indices;
  }

  lemma BatchStep(first: seq<Table>, before: seq<Table>, after: seq<Table>, virtStart: u64, physStart: u64, i: nat,
                  writable: bool, executable: bool, added: set<seq<nat>>, r: Result<bool, VmError>)
    requires virtStart + i * PAGE_SIZE < U64_LIMIT
    requires LeafStep(before, after, virtStart + i * PAGE_SIZE, PhysAt(physStart, i), writable, executable, r)
    requires Batch(first, before, virtStart, physStart, i, writable, executable, added)
    ensures r.Err? ==> Batch(first, after, virtStart, physStart, i, writable, executable, added)
    ensures r == Ok(false) ==> Batch(first, after, virtStart, physStart, i + 1, writable, executable, added)
    ensures r == Ok(true) ==>
      var x := Indices(virtStart + i * PAGE_SIZE);
      x !in added && Batch(first, after, virtStart, physStart, i + 1, writable, executable, added + {x})
  {
    hide Leaf, LeafEntry, PhysAt, Indices, SameLeaves, OneLeaf, Batch;
    if r != Ok(true) {
      BatchSame(first, before, after, virtStart, physStart, i, writable, executable, added);
      if r == Ok(false) {
        BatchRepeat(first, after, virtStart, physStart, i, writable, executable, added, before);
      }
    } else {
      BatchNew(first, before, after, virtStart, physStart, i, writable, executable, added);
    }
  }

  lemma IndicesShape(virt: u64)
    ensures |Indices(virt)| == 4 && Indices(virt)[3] < TABLE_ENTRIES
  {
  }

  lemma MappedStays(before: seq<Table>, after: seq<Table>, virtStart: u64, physStart: u64, i: nat, writable: bool,
                    executable: bool)
    requires forall k: nat :: k < i ==> PageMapped(before, virtStart, physStart, k, writable, executable)
    requires NothingReplaced(before, after)
    ensures forall k: nat :: k < i ==> PageMapped(after, virtStart, physStart, k, writable, executable)
  {
    hide Leaf, LeafEntry, PhysAt, Indices;
    forall k: nat | k < i
      ensures PageMapped(after, virtStart, physStart, k, writable, executable)
    {
      assert PageMapped(before, virtStart, physStart, k, writable, executable);
      IndicesShape(virtStart + k * PAGE_SIZE);
    }
  }

  lemma BatchSame(first: seq<Table>, before: seq<Table>, after: seq<Table>, virtStart: u64, physStart: u64, i: nat,
                  writable: bool, executable: bool, added: set<seq<nat>>)
    requires Batch(first, before, virtStart, physStart, i, writable, executable, added) && SameLeaves(before, after)
    ensures Batch(first, after, virtStart, physStart, i, writable, executable, added)
  {
    hide Leaf, PageMapped, PageAt;
    MappedStays(before, after, virtStart, physStart, i, writable, executable);
  }

  lemma BatchRepeat(first: seq<Table>, now: seq<Table>, virtStart: u64, physStart: u64, i: nat, writable: bool,
                    executable: bool, added: set<seq<nat>>, before: seq<Table>)
    requires Batch(first, now, virtStart, physStart, i, writable, executable, added)
    requires virtStart + i * PAGE_SIZE < U64_LIMIT && SameLeaves(before, now)
    requires Leaf(before, Indices(virtStart + i * PAGE_SIZE)) ==
      Some(LeafEntry(PhysAt(physStart, i), writable, executable))
    ensures Batch(first, now, virtStart, physStart, i + 1, writable, executable, added)
  {
    hide Leaf, LeafEntry, PhysAt, Indices, PageAt, Added;
    IndicesShape(virtStart + i * PAGE_SIZE);
    forall x | x in added
      ensures exists k: nat :: k < i + 1 && PageAt(x, virtStart, k)
    {
      var k: nat :| k < i && PageAt(x, virtStart, k);
    }
  }

  lemma BatchNew(first: seq<Table>, before: seq<Table>, after: seq<Table>, virtStart: u64, physStart: u64, i: nat,
                 writable: bool, executable: bool, added: set<seq<nat>>)
    requires Batch(first, before, virtStart, physStart, i, writable, executable, added)
    requires virtStart + i * PAGE_SIZE < U64_LIMIT && Leaf(before, Indices(virtStart + i * PAGE_SIZE)) == None
    requires OneLeaf(before, after, Indices(virtStart + i * PAGE_SIZE),
                     LeafEntry(PhysAt(physStart, i), writable, executable))
    ensures var x := Indices(virtStart + i * PAGE_SIZE);
      x !in added && Batch(first, after, virtStart, physStart, i + 1, writable, executable, added + {x})
  {
    hide Leaf, LeafEntry, PhysAt, Indices;
    var x := Indices(virtStart + i * PAGE_SIZE);
    IndicesShape(virtStart + i * PAGE_SIZE);
    MappedStays(before, after, virtStart, physStart, i, writable, executable);
    assert PageAt(x, virtStart, i);
    hide PageMapped, PageAt;
    forall y | y in added + {x}
      ensures exists k: nat :: k < i + 1 && PageAt(y, virtStart, k)
    {
      if y in added {
        var k: nat :| k < i && PageAt(y, virtStart, k);
      }
    }
  }

  lemma BatchOnly(first: seq<Table>, now: seq<Table>, virtStart: u64, physStart: u64, i: nat, n: nat, writable: bool,
                  executable: bool, added: set<seq<nat>>)
    requires Batch(first, now, virtStart, physStart, i, writable, executable, added) && i <= n
    ensures OnlyRange(first, now, virtStart, n) && NothingReplaced(first, now) && Added(first, now, added)
    ensures forall k: nat :: k < i ==> PageMapped(now, virtStart, physStart, k, writable, executable)
  {
    hide Leaf, Indices;
    forall x: seq<nat> | |x| == 4 && x[3] < TABLE_ENTRIES && Leaf(first, x) != Leaf(now, x)
      ensures exists k: nat :: k < n && PageAt(x, virtStart, k)
    {
      assert x in added;
      var k: nat :| k < i && PageAt(x, virtStart, k);
    }
  }

  lemma BatchFits(first: seq<Table>, now: seq<Table>, virtStart: u64, physStart: u64, n: nat, writable: bool,
                  executable: bool, added: set<seq<nat>>)
    requires Batch(first, now, virtStart, physStart, n, writable, executable, added)
    ensures NoConflict(first, virtStart, physStart, n, writable, executable)
  {
    hide Leaf, Indices, LeafEntry, PhysAt;
    forall k: nat | k < n
      ensures |PageIndices(virtStart, k)| == 4 && PageIndices(virtStart, k)[3] < TABLE_ENTRIES
      ensures Leaf(now, PageIndices(virtStart, k)) == Some(Wanted(physStart, k, writable, executable))
    {
      assert PageMapped(now, virtStart, physStart, k, writable, executable);
      IndicesShape(virtStart + k * PAGE_SIZE);
    }
    hide PageMapped, PageAt, PageIndices, Wanted;
    forall k: nat | k < n
      ensures Leaf(first, PageIndices(virtStart, k)) in {None, Some(Wanted(physStart, k, writable, executable))}
    {
      var x := PageIndices(virtStart, k);
      if x !in added {
        assert Leaf(now, x) == Leaf(first, x);
      }
    }
  }

  /** A page that is in the way makes the whole range not fit. */
  lemma BatchConflict(first: seq<Table>, now: seq<Table>, virtStart: u64, physStart: u64, i: nat, n: nat,
                      writable: bool, executable: bool, added: set<seq<nat>>)
    requires virtStart + i * PAGE_SIZE < U64_LIMIT && i < n
    requires Batch(first, now, virtStart, physStart, i, writable, executable, added)
    requires var x := Indices(virtStart + i * PAGE_SIZE);
      Leaf(now, x).Some? && Leaf(now, x) != Some(LeafEntry(PhysAt(physStart, i), writable, executable))
    ensures !NoConflict(first, virtStart, physStart, n, writable, executable)
  {
    hide Leaf, LeafEntry, PhysAt, L4Index, L3Index, L2Index, L1Index;
    var x := PageIndices(virtStart, i);
    assert |x| == 4 && x[3] < TABLE_ENTRIES;
    if x in added {
      var j: nat :| j < i && PageAt(x, virtStart, j);
      assert PageMapped(now, virtStart, physStart, j, writable, executable);
      assert PageIndices(virtStart, j) == PageIndices(virtStart, i);
    } else {
      assert Leaf(first, x) == Leaf(now, x);
    }
  }

  /** The pages that touch `[start, end)`. */
  ghost function PagesBetween(start: u64, end: u64): nat
  {
    if AlignUp(end) <= AlignDown(start) then 0 else (AlignUp(end) - AlignDown(start)) / PAGE_SIZE
  }

  lemma NothingBetween(l1: seq<Table>, start: u64, end: u64, writable: bool, executable: bool)
    requires AlignUp(end) <= AlignDown(start)
    ensures forall a: u64 :: start <= a < end ==> IdentityMapped(l1, a, writable, executable)
  {
    hide Leaf, Indices, LeafEntry;
    AlignUpCovers(end);
  }

  lemma BatchIsIdentity(first: seq<Table>, now: seq<Table>, start: u64, end: u64, writable: bool, executable: bool,
                        added: set<seq<nat>>)
    requires var v := AlignDown(start); Batch(first, now, v, v, PagesBetween(start, end), writable, executable, added)
    requires AlignDown(start) < AlignUp(end)
    ensures forall a: u64 :: start <= a < end ==> IdentityMapped(now, a, writable, executable)
  {
    hide Leaf, Indices, LeafEntry, AlignUp;
    var v, n := AlignDown(start), PagesBetween(start, end);
    AlignUpCovers(end);
    forall a: u64 | start <= a < end
      ensures IdentityMapped(now, a, writable, executable)
    {
      if a < U64_LIMIT - PAGE_SIZE {
        var k := (AlignDown(a) - v) / PAGE_SIZE;
        PageOfAddress(a, v, k);
        assert k < n by { InsideRange(a, v, AlignUp(end), k, n); }
        assert PageMapped(now, v, v, k, writable, executable);
        SamePageIndices(a, AlignDown(a));
      }
    }
  }

  lemma PageOfAddress(a: u64, v: u64, k: nat)
    requires v % PAGE_SIZE == 0 && v <= a && k == (AlignDown(a) - v) / PAGE_SIZE
    ensures v + k * PAGE_SIZE == AlignDown(a) && PhysAt(v, k) == AlignDown(a)
  {
  }

  lemma InsideRange(a: u64, v: u64, hi: u64, k: nat, n: nat)
    requires v % PAGE_SIZE == 0 && hi % PAGE_SIZE == 0 && v + k * PAGE_SIZE == AlignDown(a) && a < hi
    requires v < hi && n == (hi - v) / PAGE_SIZE
    ensures k < n
  {
  }

  lemma SamePageIndices(a: u64, current: u64)
    requires current % PAGE_SIZE == 0 && current <= a < current + PAGE_SIZE
    ensures Indices(a) == Indices(current) && AlignDown(a) == current
  {
    hide L4Index, L3Index, L2Index, L1Index;
    assert a / PAGE_SIZE == current / PAGE_SIZE;
    SameIndicesIffSamePage(a, current);
  }

  // ----- What the hardware walk sees

  /** After a successful mapping, `translate` sends the page of `virt` to the frame
      and every other page where it went before. */
  lemma MappingTranslates(a: Space, b: Space, virt: u64, phys: u64, writable: bool, executable: bool, other: u64)
    requires Tree(a) && Tree(b) && OneLeaf(a.l1, b.l1, Indices(virt), LeafEntry(phys, writable, executable))
    ensures PageOf(other) == PageOf(virt) ==> Translate(b, other) == Some(Masked(phys) + other % PAGE_SIZE)
    ensures PageOf(other) != PageOf(virt) ==> Translate(b, other) == Translate(a, other)
    ensures Masked(phys) == phys <==> Frame(phys)
  {
    hide Tree, Leaf, Walk, MakeEntry, L4Index, L3Index, L2Index, L1Index, PageOf, Masked;
    WalkIsLeaf(a, other);
    WalkIsLeaf(b, other);
    SameIndicesIffSamePage(other, virt);
    EntryParts(phys, writable, false, executable);
    MaskedIff(phys);
    assert |Indices(other)| == 4 && Indices(other)[3] < TABLE_ENTRIES;
  }

  /** Errors and repetitions leave every translation as it was. */
  lemma SameTranslations(a: Space, b: Space, other: u64)
    requires Tree(a) && Tree(b) && SameLeaves(a.l1, b.l1)
    ensures Translate(b, other) == Translate(a, other)
  {
    hide Tree, Leaf, Walk, L4Index, L3Index, L2Index, L1Index;
    WalkIsLeaf(a, other);
    WalkIsLeaf(b, other);
    assert |Indices(other)| == 4 && Indices(other)[3] < TABLE_ENTRIES;
  }
}
