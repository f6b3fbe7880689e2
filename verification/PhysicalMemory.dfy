/** The physical page allocator: fixed tables updated in place, proved against the pool. */
module PhysicalMemory {
  import opened Wrappers
  import opened Arith
  import opened PagePool
  import opened PageRegions

  const MAX_SPANS: nat := MAX_RESERVED + 1

  // ----- Cutting one region in two fixed buffers

  /** Appends a non-empty span while the buffer has room. */
  method PushSpan(spans: array<Span>, count: nat, span: Span) returns (next: nat)
    requires count <= spans.Length
    modifies spans
    ensures count <= next <= spans.Length
    ensures spans[..count] == old(spans[..count])
    ensures span.start < span.end && count < spans.Length ==> spans[..next] == old(spans[..count]) + [span]
    ensures !(span.start < span.end && count < spans.Length) ==> next == count
  {
    if span.end <= span.start || count >= spans.Length {
      return count;
    }
    spans[count] := span;
    next := count + 1;
    assert spans[..next] == spans[..count] + [spans[count]];
  }

  /** The spans that fit into `room`. */
  function Fitting(spans: seq<Span>, room: nat): seq<Span>
  {
    if |spans| <= room then spans else spans[..room]
  }

  /** Pushes what one hole leaves of one span; pieces the buffer has no room for are dropped. */
  method PushCut(spans: array<Span>, count: nat, span: Span, hole: Span) returns (next: nat)
    requires count <= spans.Length
    modifies spans
    ensures next <= spans.Length && spans[..next] == Fitting(old(spans[..count]) + Cut(span, hole), spans.Length)
  {
    next := count;
    if span.end <= span.start {
      return;
    }
    var from := if span.start < hole.start then hole.start else span.start;
    var to := if span.end < hole.end then span.end else hole.end;
    if to <= from {
      next := PushSpan(spans, next, span);
      return;
    }
    if span.start < from {
      next := PushSpan(spans, next, Span(span.start, from));
    }
    if to < span.end {
      next := PushSpan(spans, next, Span(to, span.end));
    }
  }

  /** Cuts one region around every reserved range. Neither buffer of seventeen spans can
      overflow, so no fragment is lost. */
  method CutRegion(span: Span, reserved: seq<Reserved>) returns (active: array<Span>, count: nat)
    requires span.start <= span.end && |reserved| <= MAX_RESERVED
    ensures fresh(active) && count <= active.Length
    ensures active[..count] == Fragments(span, reserved)
  {
    hide Fragments, CutAll, Cut, Hole, Ordered, Contained, InnerHoles;
    active := new Span[MAX_SPANS](_ => Span(0, 0));
    active[0] := span;
    count := 1;
    var k := 0;
    NoHoles(span);
    assert reserved[..0] == [];
    while k < |reserved|
      invariant k <= |reserved| && fresh(active) && active.Length == MAX_SPANS && count <= MAX_SPANS
      invariant active[..count] == Fragments(span, reserved[..k])
    {
      var range := reserved[k];
      assert reserved[..k + 1][..k] == reserved[..k];
      FragmentsStep(span, reserved[..k + 1]);
      if !Skipped(range) {
        FragmentsFit(span, reserved[..k + 1]);
        var scratch, scratchCount := CutActive(active, count, Hole(range));
        active, count := scratch, scratchCount;
        if count == 0 {
          StayEmpty(span, reserved, k + 1);
          return;
        }
      }
      k := k + 1;
    }
    assert reserved[..k] == reserved;
  }

  method CutActive(active: array<Span>, count: nat, hole: Span) returns (scratch: array<Span>, scratchCount: nat)
    requires count <= active.Length && |CutAll(active[..count], hole)| <= MAX_SPANS
    ensures fresh(scratch) && scratch.Length == MAX_SPANS && scratchCount <= MAX_SPANS
    ensures scratch[..scratchCount] == CutAll(active[..count], hole)
  {
    hide Cut;
    scratch := new Span[MAX_SPANS](_ => Span(0, 0));
    scratchCount := 0;
    var i := 0;
    ghost var spans := active[..count];
    while i < count
      invariant i <= count && scratchCount <= MAX_SPANS && active[..count] == spans
      invariant scratch[..scratchCount] == CutAll(spans[..i], hole)
    {
      assert spans[..i + 1][..i] == spans[..i];
      CutAllGrows(spans, i + 1, hole);
      scratchCount := PushCut(scratch, scratchCount, active[i], hole);
      i := i + 1;
    }
    assert spans[..count] == spans;
  }

  lemma {:induction false} CutAllGrows(spans: seq<Span>, i: nat, hole: Span)
    requires i <= |spans|
    ensures |CutAll(spans[..i], hole)| <= |CutAll(spans, hole)|
  {
    if i == |spans| {
      assert spans[..i] == spans;
    } else {
      var front := spans[..|spans| - 1];
      assert front[..i] == spans[..i];
      CutAllGrows(front, i, hole);
    }
  }

  lemma NoHoles(span: Span)
    ensures Fragments(span, []) == [span]
  {
  }

  lemma FragmentsStep(span: Span, reserved: seq<Reserved>)
    requires reserved != []
    ensures var front, r := reserved[..|reserved| - 1], reserved[|reserved| - 1];
      Fragments(span, reserved) ==
      if Skipped(r) then Fragments(span, front) else CutAll(Fragments(span, front), Hole(r))
  {
  }

  lemma FragmentsFit(span: Span, reserved: seq<Reserved>)
    requires span.start <= span.end && |reserved| <= MAX_RESERVED
    ensures |Fragments(span, reserved)| <= MAX_SPANS
  {
    hide Fragments, InnerHoles, Ordered, Contained;
    FragmentCount(span, reserved);
  }

  /** Once nothing is left, later ranges leave nothing. */
  lemma {:induction false} StayEmpty(span: Span, reserved: seq<Reserved>, k: nat)
    requires k <= |reserved| && Fragments(span, reserved[..k]) == []
    ensures Fragments(span, reserved) == []
    decreases |reserved|
  {
    if k == |reserved| {
      assert reserved[..k] == reserved;
    } else {
      var front := reserved[..|reserved| - 1];
      assert front[..k] == reserved[..k];
      StayEmpty(span, front, k);
    }
  }

  // ----- The allocator

  function SumCounts(rs: seq<Region>): nat
  {
    if rs == [] then 0 else SumCounts(rs[..|rs| - 1]) + rs[|rs| - 1].count
  }

  /** The entries that fit the region table. */
  function Kept(rs: seq<Region>): seq<Region>
  {
    if |rs| <= MAX_REGIONS then rs else rs[..MAX_REGIONS]
  }

  lemma KeptGrows(a: seq<Region>, b: seq<Region>)
    requires |b| <= 1
    ensures Kept(a + b) == if |a| < MAX_REGIONS then a + b else Kept(a)
    ensures Kept(Kept(a) + b) == Kept(a + b)
  {
    if |a| >= MAX_REGIONS {
      assert (a + b)[..MAX_REGIONS] == a[..MAX_REGIONS];
      assert (Kept(a) + b)[..MAX_REGIONS] == a[..MAX_REGIONS];
      assert a[..MAX_REGIONS] == Kept(a);
    }
  }

  /** Sorted and disjoint, where neighbours may touch. */
  ghost predicate Sorted(es: seq<Extent>)
  {
    && (forall i :: 0 <= i < |es| ==> es[i].count > 0)
    && (forall i, j :: 0 <= i < j < |es| ==> EndOf(es[i]) <= es[j].start)
  }

  lemma MergeSorted(es: seq<Extent>, i: nat)
    requires Sorted(es) && i + 1 < |es| && EndOf(es[i]) == es[i + 1].start
    ensures Sorted(Splice(es, i, i + 2, [Extent(es[i].start, es[i].count + es[i + 1].count)]))
  {
    hide Splice;
    var e := Extent(es[i].start, es[i].count + es[i + 1].count);
    var merged := Splice(es, i, i + 2, [e]);
    SpliceLength(es, i, e);
    forall k | 0 <= k < |merged|
      ensures merged[k].count > 0
    {
      SpliceAt(es, i, i + 2, [e], k);
    }
    forall j, k | 0 <= j < k < |merged|
      ensures EndOf(merged[j]) <= merged[k].start
    {
      SpliceAt(es, i, i + 2, [e], j);
      SpliceAt(es, i, i + 2, [e], k);
    }
  }

  lemma SpliceLength(es: seq<Extent>, i: nat, e: Extent)
    requires i + 1 < |es|
    ensures |Splice(es, i, i + 2, [e])| == |es| - 1
  {
  }

  lemma MergePages(es: seq<Extent>, i: nat)
    requires i + 1 < |es| && EndOf(es[i]) == es[i + 1].start
    ensures Pages(Splice(es, i, i + 2, [Extent(es[i].start, es[i].count + es[i + 1].count)])) == Pages(es)
  {
    hide Pages, Splice;
    BothSidesPages(es, i + 1, 0);
    assert Interval(EndOf(es[i]), 0) == {};
  }

  /** Every region ends at or below the last page boundary of the address space. */
  ghost predicate Addressable(rs: seq<Region>)
  {
    forall i :: 0 <= i < |rs| ==> (rs[i].start + rs[i].count) * PAGE <= TOP
  }

  class PhysicalPageAllocator {
    var initialized: bool
    const regions: array<Region>
    var regionCount: nat
    var totalUsablePages: nat
    var allocatedPages: nat
    const freeExtents: array<Extent>
    var freeExtentCount: nat

    ghost predicate Shaped()
      reads this
    {
      && regions.Length == MAX_REGIONS && regionCount <= MAX_REGIONS
      && freeExtents.Length == MAX_FREE_EXTENTS && freeExtentCount <= MAX_FREE_EXTENTS
    }

    ghost function Regions(): seq<Region>
      requires Shaped()
      reads this, regions
    {
      regions[..regionCount]
    }

    ghost function Extents(): seq<Extent>
      requires Shaped()
      reads this, freeExtents
    {
      freeExtents[..freeExtentCount]
    }

    ghost function Contents(): Pool
      requires Shaped()
      reads this, regions, freeExtents
    {
      Pool(Regions(), Extents(), allocatedPages)
    }

    /** The pool's invariant, and every region below the top of the address space. */
    ghost predicate Valid()
      reads this, regions, freeExtents
    {
      && Shaped()
      && (initialized ==> PoolOk(Contents()) && Addressable(Contents().regions))
    }

    constructor ()
      ensures Valid() && !initialized && fresh(regions) && fresh(freeExtents)
    {
      initialized := false;
      regions := new Region[MAX_REGIONS](_ => Region(0, 0, 0));
      regionCount := 0;
      totalUsablePages := 0;
      allocatedPages := 0;
      freeExtents := new Extent[MAX_FREE_EXTENTS](_ => Extent(0, 0));
      freeExtentCount := 0;
    }

    // ----- The region table

    method PushRegion(span: Span)
      requires Shaped() && span.end <= TOP
      modifies this`regionCount, this`totalUsablePages, regions
      ensures Shaped()
      ensures Regions() == Kept(old(Regions()) + PagesOf(span))
      ensures old(totalUsablePages) == SumCounts(old(Regions())) ==>
        totalUsablePages == SumCounts(Regions())
    {
      KeptGrows(Regions(), PagesOf(span));
      var start, end := AlignUp(span.start), AlignDown(span.end);
      if end <= start || regionCount >= MAX_REGIONS {
        return;
      }
      var pageCount := (end - start) / PAGE;
      if pageCount == 0 {
        assert false;
      }
      regions[regionCount] := Region(start / PAGE, pageCount, 0);
      regionCount := regionCount + 1;
      totalUsablePages := totalUsablePages + pageCount;
      assert Regions() == regions[..regionCount - 1] + [regions[regionCount - 1]];
      assert Regions()[..regionCount - 1] == old(Regions());
    }

    method AddRegionFragments(span: Span, reserved: seq<Reserved>)
      requires Shaped() && span.start <= span.end <= TOP && |reserved| <= MAX_RESERVED
      requires totalUsablePages == SumCounts(Regions())
      modifies this`regionCount, this`totalUsablePages, regions
      ensures Shaped() && totalUsablePages == SumCounts(Regions())
      ensures Regions() == Kept(old(Regions()) + RegionsOf(Fragments(span, reserved)))
    {
      hide Fragments, SumCounts, PagesOf, Kept;
      ghost var before := Regions();
      ghost var spans := Fragments(span, reserved);
      var active, count := CutRegion(span, reserved);
      assert active[..count] == spans;
      FragmentCount(span, reserved);
      var i := 0;
      NothingYet(before);
      while i < count
        invariant i <= count && Shaped() && active[..count] == spans
        invariant totalUsablePages == SumCounts(Regions())
        invariant Regions() == Kept(before + RegionsOf(spans[..i]))
      {
        ghost var soFar := RegionsOf(spans[..i]);
        assert spans[..i + 1][..i] == spans[..i] && active[i] == spans[i];
        assert before + (soFar + PagesOf(spans[i])) == (before + soFar) + PagesOf(spans[i]);
        PagesOfMeaning(spans[i], 0);
        KeptGrows(before + soFar, PagesOf(spans[i]));
        PushRegion(active[i]);
        i := i + 1;
      }
      assert spans[..i] == spans;
    }

    /** The table holds the memory map's usable regions cut around the reserved ranges, and
        no page is handed out yet. */
    method Init(memory: seq<MemoryRegion>, reserved: seq<Reserved>)
      requires Shaped() && |memory| <= MAX_MEMORY_REGIONS && |reserved| <= MAX_RESERVED
      requires forall i :: 0 <= i < |memory| ==> memory[i].start <= TOP
      modifies this, regions, freeExtents
      ensures Shaped() && initialized
      ensures Contents() == Pool(Kept(Table(memory, reserved)), [], 0)
      ensures totalUsablePages == SumCounts(Regions())
      ensures DisjointMap(memory) ==> Valid() && Contents().regions == Table(memory, reserved) && Live(Contents()) == {}
    {
      hide RegionsOf, Fragments, Kept, DisjointMap, PoolOk, Live, Addressable;
      initialized := true;
      regionCount := 0;
      ClearRegions();
      totalUsablePages := 0;
      allocatedPages := 0;
      ClearExtents();
      freeExtentCount := 0;
      var k := 0;
      NothingYet([]);
      while k < |memory|
        invariant k <= |memory| && Shaped() && initialized && freeExtentCount == 0 && allocatedPages == 0
        invariant totalUsablePages == SumCounts(Regions())
        invariant Regions() == Kept(Table(memory[..k], reserved))
      {
        var region := memory[k];
        assert memory[..k + 1][..k] == memory[..k];
        if Counted(region) {
          AddRegionFragments(SpanOf(region), reserved);
          KeptTwice(Table(memory[..k], reserved), RegionsOf(Fragments(SpanOf(region), reserved)));
        } else {
          assert Table(memory[..k], reserved) + [] == Table(memory[..k], reserved);
        }
        k := k + 1;
      }
      assert memory[..k] == memory;
      if DisjointMap(memory) {
        TableReady(memory, reserved);
      }
    }

    method ClearRegions()
      requires Shaped()
      modifies regions
      ensures forall i :: 0 <= i < regions.Length ==> regions[i] == Region(0, 0, 0)
    {
      for i := 0 to regions.Length
        invariant forall j :: 0 <= j < i ==> regions[j] == Region(0, 0, 0)
      {
        regions[i] := Region(0, 0, 0);
      }
    }

    method ClearExtents()
      requires Shaped()
      modifies freeExtents
      ensures forall i :: 0 <= i < freeExtents.Length ==> freeExtents[i] == Extent(0, 0)
    {
      for i := 0 to freeExtents.Length
        invariant forall j :: 0 <= j < i ==> freeExtents[j] == Extent(0, 0)
      {
        freeExtents[i] := Extent(0, 0);
      }
    }

    // ----- The extent table

    method RemoveFreeExtent(index: nat)
      requires Shaped() && index < freeExtentCount
      modifies this`freeExtentCount, freeExtents
      ensures Shaped() && freeExtentCount == old(freeExtentCount) - 1
      ensures Extents() == Splice(old(Extents()), index, index + 1, [])
    {
      ghost var es := Extents();
      var current := index;
      while current < freeExtentCount - 1
        invariant Shaped() && freeExtentCount == |es| && index <= current <= |es| - 1
        invariant forall i :: 0 <= i < index ==> freeExtents[i] == es[i]
        invariant forall i :: index <= i < current ==> freeExtents[i] == es[i + 1]
        invariant forall i :: current <= i < freeExtentCount ==> freeExtents[i] == es[i]
      {
        freeExtents[current] := freeExtents[current + 1];
        current := current + 1;
      }
      freeExtentCount := freeExtentCount - 1;
      freeExtents[freeExtentCount] := Extent(0, 0);
      assert Extents() == es[..index] + es[index + 1..];
      assert es[..index] + [] == es[..index];
    }

    method InsertFreeExtent(index: nat, extent: Extent)
      requires Shaped() && index <= freeExtentCount < MAX_FREE_EXTENTS
      modifies this`freeExtentCount, freeExtents
      ensures Shaped() && freeExtentCount == old(freeExtentCount) + 1
      ensures Extents() == Splice(old(Extents()), index, index, [extent])
    {
      ghost var es := Extents();
      var current := freeExtentCount;
      while current > index
        invariant freeExtents.Length == MAX_FREE_EXTENTS && freeExtentCount == |es| && index <= current <= |es|
        invariant forall i :: 0 <= i < current ==> freeExtents[i] == es[i]
        invariant forall i :: current < i <= freeExtentCount ==> freeExtents[i] == es[i - 1]
      {
        current := current - 1;
        freeExtents[current + 1] := freeExtents[current];
      }
      freeExtents[index] := extent;
      freeExtentCount := freeExtentCount + 1;
      assert Extents() == es[..index] + [extent] + es[index..];
    }

    method MergeWithNext(index: nat)
      requires Shaped() && index + 1 < freeExtentCount
      modifies this`freeExtentCount, freeExtents
      ensures Shaped() && freeExtentCount == old(freeExtentCount) - 1
      ensures var es := old(Extents());
        var both := Extent(es[index].start, es[index].count + es[index + 1].count);
        && Extents() == Splice(es, index, index + 2, [both])
        && freeExtents[..index + 1] == es[..index] + [both]
    {
      hide Splice;
      ghost var es := Extents();
      var both := Extent(freeExtents[index].start, freeExtents[index].count + freeExtents[index + 1].count);
      freeExtents[index] := both;
      assert Extents() == es[index := both];
      RemoveFreeExtent(index + 1);
      MergeIsSplice(es, index, both);
      assert freeExtents[..index + 1] == Extents()[..index + 1];
    }

    /** Merges touching neighbours: the same pages, with a gap between any two extents. */
    method CoalesceFreeExtents()
      requires Shaped() && Sorted(Extents())
      modifies this`freeExtentCount, freeExtents
      ensures Shaped() && Merged(Extents())
      ensures Pages(Extents()) == Pages(old(Extents()))
      ensures old(Merged(Extents())) ==>
        Extents() == old(Extents())
    {
      hide Pages, Splice, Sorted, Merged, Stepped;
      ghost var es := Extents();
      var index := 0;
      NoSteps(es);
      while index + 1 < freeExtentCount
        invariant Shaped() && Sorted(Extents())
        invariant if freeExtentCount == 0 then index == 0 else index < freeExtentCount
        invariant Stepped(Extents(), index)
        invariant Pages(Extents()) == Pages(es)
        invariant Merged(es) ==> Extents() == es
        decreases freeExtentCount - index
      {
        ghost var now := Extents();
        assert now[index] == freeExtents[index] && now[index + 1] == freeExtents[index + 1];
        OneStep(now, index);
        if EndOf(freeExtents[index]) == freeExtents[index + 1].start {
          MergeSorted(now, index);
          MergePages(now, index);
          MergeWithNext(index);
        } else {
          index := index + 1;
        }
      }
      StepsAreMerged(Extents(), index);
    }

    // ----- Handing pages out

    /** Hands out `n` pages in a row: pages nobody holds, which then are held, with the
        counter still exact. The answer is the first page's address. */
    method AllocateContiguousPages(n: nat) returns (got: Option<nat>)
      requires Valid()
      modifies this, regions, freeExtents
      ensures Valid() && initialized == old(initialized)
      ensures !initialized ==> got.None? && Contents() == old(Contents())
      ensures initialized ==> Contents() == Allocate(old(Contents()), n).0
      ensures initialized ==>
        got == match Allocate(old(Contents()), n).1 { case Some(page) => Some(page * PAGE) case None => None }
      ensures got.Some? ==> got.value % PAGE == 0 && Granted(old(Contents()), got.value / PAGE, n, Contents())
    {
      hide PoolOk, Granted, Allocate, FirstExtent, FirstRegion, Addressable, Splice;
      if n == 0 {
        NothingAsked(Contents());
        return None;
      }
      if !initialized {
        return None;
      }
      ghost var pool := Contents();
      AllocateStep(pool, n);
      AllocateKeepsAddresses(pool, n);
      var index := FindExtent(n);
      if index < freeExtentCount {
        var page := TakeFromExtent(index, n);
        TakenFromExtent(pool, n, index);
        AddressOfPage(page);
        return Some(page * PAGE);
      }
      var k := FindRegion(n);
      if k < regionCount {
        var page := TakeFromRegion(k, n);
        TakenFromRegion(pool, n, k);
        AddressOfPage(page);
        return Some(page * PAGE);
      }
      NothingFits(pool, n);
      return None;
    }

    method TakeFromExtent(index: nat, n: nat) returns (page: nat)
      requires Shaped() && index < freeExtentCount && n <= freeExtents[index].count
      modifies this`freeExtentCount, this`allocatedPages, freeExtents
      ensures Shaped() && allocatedPages == old(allocatedPages) + n
      ensures page == old(freeExtents[index].start)
      ensures var es := old(Extents());
        var shorter := es[index := Extent(es[index].start + n, es[index].count - n)];
        Extents() ==
        if es[index].count == n then Splice(shorter, index, index + 1, []) else shorter
    {
      hide Splice;
      ghost var es := Extents();
      var extent := freeExtents[index];
      page := extent.start;
      freeExtents[index] := Extent(extent.start + n, extent.count - n);
      assert Extents() == es[index := Extent(extent.start + n, extent.count - n)];
      if freeExtents[index].count == 0 {
        RemoveFreeExtent(index);
      }
      allocatedPages := allocatedPages + n;
    }

    method TakeFromRegion(k: nat, n: nat) returns (page: nat)
      requires Shaped() && k < regionCount
      modifies this`allocatedPages, regions
      ensures allocatedPages == old(allocatedPages) + n
      ensures page == old(regions[k].start + regions[k].next)
      ensures var rs := old(Regions());
        Regions() == rs[k := Region(rs[k].start, rs[k].count, rs[k].next + n)]
    {
      var region := regions[k];
      page := region.start + region.next;
      regions[k] := Region(region.start, region.count, region.next + n);
      allocatedPages := allocatedPages + n;
    }

    method FindExtent(n: nat) returns (index: nat)
      requires Shaped()
      ensures index == FirstExtent(Extents(), n)
    {
      index := 0;
      while index < freeExtentCount && freeExtents[index].count < n
        invariant index <= freeExtentCount
        invariant forall i :: 0 <= i < index ==> freeExtents[i].count < n
      {
        index := index + 1;
      }
    }

    method FindRegion(n: nat) returns (index: nat)
      requires Shaped()
      ensures index == FirstRegion(Regions(), n)
    {
      index := 0;
      while index < regionCount && regions[index].count - regions[index].next < n
        invariant index <= regionCount
        invariant forall i :: 0 <= i < index ==> regions[i].count - regions[i].next < n
      {
        index := index + 1;
      }
    }

    // ----- Taking pages back

    /** Takes `n` pages back from byte address `start`: on success exactly these pages leave
        the live set; on refusal nothing changes. */
    method DeallocateContiguousPages(start: nat, n: nat) returns (ok: bool)
      requires Valid()
      modifies this, regions, freeExtents
      ensures Valid() && initialized == old(initialized)
      ensures ok ==> initialized && start % PAGE == 0
      ensures initialized && start % PAGE == 0 ==>
        (Contents(), ok) == Deallocate(old(Contents()), start / PAGE, n)
      ensures ok ==> Released(old(Contents()), start / PAGE, n, Contents())
      ensures !ok ==> Contents() == old(Contents())
    {
      hide PoolOk, Released, Deallocate, Addressable, Live, Interval, Inside, Overlaps, Returned, Merged, TouchesLeft,
        TouchesRight;
      if !initialized || start % PAGE != 0 {
        return false;
      }
      ghost var pool := Contents();
      var page := start / PAGE;
      DeallocateStep(pool, page, n);
      if n == 0 || allocatedPages < n {
        Refused(pool, page, n);
        return false;
      }
      if n * PAGE > TOP || start + n * PAGE > TOP {
        BeyondTop(pool, page, n);
        Refused(pool, page, n);
        return false;
      }
      var wasAllocated := WasAllocated(page, n);
      var overlaps := OverlapsFree(page, n);
      if !wasAllocated || overlaps {
        Refused(pool, page, n);
        return false;
      }
      PoolMerged(pool);
      ok := ReturnPages(page, n);
      Considered(pool, page, n, ok, Extents());
    }

    /** Merges a return into the table, or refuses it when the table is full. */
    method ReturnPages(page: nat, n: nat) returns (ok: bool)
      requires Shaped() && Merged(Extents()) && n > 0 && n <= allocatedPages
      requires !Overlaps(Extents(), page, n)
      modifies this`freeExtentCount, this`allocatedPages, freeExtents
      ensures Shaped()
      ensures Returned(old(Extents()), page, n, ok, Extents())
      ensures allocatedPages == old(allocatedPages) - if ok then n else 0
    {
      hide Place, Splice, Merged, Overlaps, GiveBack, TouchesLeft, TouchesRight, Returned;
      ghost var es := Extents();
      var insertion := FindPlace(page);
      assert |es| == freeExtentCount && insertion <= |es|;
      assert insertion > 0 ==> freeExtents[insertion - 1] == es[insertion - 1];
      assert insertion < |es| ==> freeExtents[insertion] == es[insertion];
      hide Extents;
      TouchesAt(es, page, n, insertion);
      if insertion > 0 && EndOf(freeExtents[insertion - 1]) == page {
        GrowLeft(insertion, n);
        ReturnedLeft(es, page, n, insertion);
        ok := true;
      } else if insertion < freeExtentCount && page + n == freeExtents[insertion].start {
        GrowRight(insertion, page, n);
        ReturnedRight(es, page, n, insertion);
        ok := true;
      } else if freeExtentCount >= MAX_FREE_EXTENTS {
        ReturnRefused(es, page, n, insertion);
        return false;
      } else {
        ReturnedApart(es, page, n, insertion);
        InsertAndCoalesce(insertion, Extent(page, n));
        ok := true;
      }
      allocatedPages := allocatedPages - n;
    }

    method GrowRight(insertion: nat, page: nat, n: nat)
      requires Shaped() && insertion < freeExtentCount
      modifies freeExtents
      ensures var es := old(Extents());
        Extents() == Splice(es, insertion, insertion + 1, [Extent(page, es[insertion].count + n)])
    {
      hide Splice;
      ghost var es := Extents();
      var grown := Extent(page, freeExtents[insertion].count + n);
      freeExtents[insertion] := grown;
      assert Extents() == es[insertion := grown];
      GrownInPlace(es, insertion, grown);
    }

    /** Inserting an extent that touches no neighbour leaves nothing to coalesce. */
    method InsertAndCoalesce(insertion: nat, extent: Extent)
      requires Shaped() && insertion <= freeExtentCount < MAX_FREE_EXTENTS
      requires Merged(Splice(Extents(), insertion, insertion, [extent]))
      modifies this`freeExtentCount, freeExtents
      ensures Shaped()
      ensures Extents() == Splice(old(Extents()), insertion, insertion, [extent])
    {
      hide Splice, Merged, Sorted, Pages;
      InsertFreeExtent(insertion, extent);
      MergedIsSorted(Extents());
      CoalesceFreeExtents();
    }

    /** Grows the extent before `insertion` by `n` pages, and joins it with the one behind if
        they now touch. */
    method GrowLeft(insertion: nat, n: nat)
      requires Shaped() && 0 < insertion <= freeExtentCount
      modifies this`freeExtentCount, freeExtents
      ensures Shaped()
      ensures var es := old(Extents());
        var left := es[insertion - 1];
        Extents() ==
        if insertion < |es| && EndOf(left) + n == es[insertion].start then
          Splice(es, insertion - 1, insertion + 1, [Extent(left.start, left.count + n + es[insertion].count)])
        else
          Splice(es, insertion - 1, insertion, [Extent(left.start, left.count + n)])
    {
      hide Splice;
      ghost var es := Extents();
      var left := freeExtents[insertion - 1];
      freeExtents[insertion - 1] := Extent(left.start, left.count + n);
      assert Extents() == es[insertion - 1 := Extent(left.start, left.count + n)];
      GrownInPlace(es, insertion - 1, Extent(left.start, left.count + n));
      if insertion < freeExtentCount && EndOf(freeExtents[insertion - 1]) == freeExtents[insertion].start {
        var both := Extent(left.start, left.count + n + freeExtents[insertion].count);
        freeExtents[insertion - 1] := both;
        assert Extents() == es[insertion - 1 := both];
        RemoveFreeExtent(insertion);
        MergeIsSplice(es, insertion - 1, both);
      }
    }

    method FindPlace(page: nat) returns (index: nat)
      requires Shaped()
      ensures index == Place(Extents(), page)
    {
      index := 0;
      while index < freeExtentCount && freeExtents[index].start <= page
        invariant index <= freeExtentCount
        invariant forall i :: 0 <= i < index ==> freeExtents[i].start <= page
      {
        index := index + 1;
      }
    }

    method WasAllocated(page: nat, n: nat) returns (found: bool)
      requires Shaped()
      ensures found == Inside(Regions(), page, n)
    {
      ghost var rs := Regions();
      found := false;
      var i := 0;
      while i < regionCount && !found
        invariant i <= regionCount
        invariant found ==> Inside(rs, page, n)
        invariant !found ==>
          forall k :: 0 <= k < i ==> !(rs[k].start <= page && page + n <= rs[k].start + rs[k].next)
      {
        assert rs[i] == regions[i];
        found := regions[i].start <= page && page + n <= regions[i].start + regions[i].next;
        i := i + 1;
      }
    }

    method OverlapsFree(page: nat, n: nat) returns (found: bool)
      requires Shaped()
      ensures found == Overlaps(Extents(), page, n)
    {
      ghost var es := Extents();
      found := false;
      var i := 0;
      while i < freeExtentCount && !found
        invariant i <= freeExtentCount
        invariant found ==> Overlaps(es, page, n)
        invariant !found ==> forall k :: 0 <= k < i ==> !(page < EndOf(es[k]) && es[k].start < page + n)
      {
        assert es[i] == freeExtents[i];
        found := page < EndOf(freeExtents[i]) && freeExtents[i].start < page + n;
        i := i + 1;
      }
    }
  }

  // ----- One step of the pool at a time

  lemma TouchesAt(es: seq<Extent>, start: nat, n: nat, k: nat)
    requires k == Place(es, start)
    ensures k <= |es|
    ensures TouchesLeft(es, start) <==> k > 0 && EndOf(es[k - 1]) == start
    ensures TouchesRight(es, start, n) <==> k < |es| && start + n == es[k].start
  {
  }

  /** A return is merged into the table unless it touches nothing and the table is full. */
  ghost predicate Returned(es: seq<Extent>, page: nat, n: nat, ok: bool, after: seq<Extent>)
  {
    && ok == (TouchesLeft(es, page) || TouchesRight(es, page, n) || |es| < MAX_FREE_EXTENTS)
    && after == if ok then GiveBack(es, page, n) else es
  }

  lemma ReturnedLeft(es: seq<Extent>, page: nat, n: nat, k: nat)
    requires k == Place(es, page) && k > 0 && EndOf(es[k - 1]) == page
    ensures k < |es| && EndOf(es[k - 1]) + n == es[k].start ==>
      Returned(es, page, n, true,
               Splice(es, k - 1, k + 1, [Extent(es[k - 1].start, es[k - 1].count + n + es[k].count)]))
    ensures !(k < |es| && EndOf(es[k - 1]) + n == es[k].start) ==>
      Returned(es, page, n, true, Splice(es, k - 1, k, [Extent(es[k - 1].start, es[k - 1].count + n)]))
  {
    hide Place, Splice;
  }

  lemma ReturnedRight(es: seq<Extent>, page: nat, n: nat, k: nat)
    requires k == Place(es, page) && !(k > 0 && EndOf(es[k - 1]) == page) && k < |es| && page + n == es[k].start
    ensures Returned(es, page, n, true, Splice(es, k, k + 1, [Extent(page, es[k].count + n)]))
  {
    hide Place, Splice;
  }

  lemma ReturnedApart(es: seq<Extent>, page: nat, n: nat, k: nat)
    requires Merged(es) && n > 0 && !Overlaps(es, page, n)
    requires k == Place(es, page) && !(k > 0 && EndOf(es[k - 1]) == page) && !(k < |es| && page + n == es[k].start)
    requires |es| < MAX_FREE_EXTENTS
    ensures Merged(Splice(es, k, k, [Extent(page, n)]))
    ensures Returned(es, page, n, true, Splice(es, k, k, [Extent(page, n)]))
  {
    hide Place, Splice, Merged, Overlaps;
    GiveBackMerged(es, page, n);
  }

  lemma ReturnRefused(es: seq<Extent>, page: nat, n: nat, k: nat)
    requires k == Place(es, page) && !(k > 0 && EndOf(es[k - 1]) == page) && !(k < |es| && page + n == es[k].start)
    requires |es| >= MAX_FREE_EXTENTS
    ensures Returned(es, page, n, false, es)
  {
    hide Place;
  }

  lemma AllocateStep(pool: Pool, n: nat)
    requires PoolOk(pool)
    ensures PoolOk(Allocate(pool, n).0)
    ensures Allocate(pool, n).1.Some? ==> Granted(pool, Allocate(pool, n).1.value, n, Allocate(pool, n).0)
  {
    AllocateMeaning(pool, n);
  }

  lemma DeallocateStep(pool: Pool, start: nat, n: nat)
    requires PoolOk(pool)
    ensures var (after, ok) := Deallocate(pool, start, n);
      PoolOk(after) && after.regions == pool.regions
      && (ok ==> Released(pool, start, n, after)) && (!ok ==> after == pool)
  {
    DeallocateMeaning(pool, start, n);
  }

  lemma NothingAsked(pool: Pool)
    ensures Allocate(pool, 0) == (pool, None)
  {
  }

  lemma NothingFits(pool: Pool, n: nat)
    requires FirstExtent(pool.extents, n) == |pool.extents| && FirstRegion(pool.regions, n) == |pool.regions|
    ensures Allocate(pool, n) == (pool, None)
  {
  }

  lemma TakenFromExtent(pool: Pool, n: nat, i: nat)
    requires n > 0 && i == FirstExtent(pool.extents, n) && i < |pool.extents|
    ensures var e := pool.extents[i];
      var es := pool.extents[i := Extent(e.start + n, e.count - n)];
      Allocate(pool, n) ==
      (Pool(pool.regions, if e.count == n then Splice(es, i, i + 1, []) else es, pool.allocatedPages + n),
       Some(e.start))
  {
    var e := pool.extents[i];
    var es := pool.extents[i := Extent(e.start + n, e.count - n)];
    if e.count == n {
      assert Splice(es, i, i + 1, []) == Splice(pool.extents, i, i + 1, []);
    } else {
      GrownInPlace(pool.extents, i, Extent(e.start + n, e.count - n));
    }
  }

  lemma TakenFromRegion(pool: Pool, n: nat, k: nat)
    requires n > 0 && FirstExtent(pool.extents, n) == |pool.extents|
    requires k == FirstRegion(pool.regions, n) && k < |pool.regions|
    ensures var r := pool.regions[k];
      Allocate(pool, n) ==
      (Pool(pool.regions[k := Region(r.start, r.count, r.next + n)], pool.extents, pool.allocatedPages + n),
       Some(r.start + r.next))
  {
  }

  lemma AllocateKeepsAddresses(pool: Pool, n: nat)
    requires Addressable(pool.regions)
    ensures Addressable(Allocate(pool, n).0.regions)
  {
  }

  lemma AddressOfPage(page: nat)
    ensures page * PAGE % PAGE == 0 && page * PAGE / PAGE == page
  {
    DivModUnique(page * PAGE, PAGE, page, 0);
  }

  lemma GrownInPlace(es: seq<Extent>, i: nat, e: Extent)
    requires i < |es|
    ensures Splice(es, i, i + 1, [e]) == es[i := e]
  {
  }

  lemma MergedIsSorted(es: seq<Extent>)
    requires Merged(es)
    ensures Sorted(es)
  {
  }

  lemma Refused(pool: Pool, page: nat, n: nat)
    requires n == 0 || pool.allocatedPages < n || !Inside(pool.regions, page, n) || Overlaps(pool.extents, page, n)
    ensures Deallocate(pool, page, n) == (pool, false)
  {
  }

  lemma Considered(pool: Pool, page: nat, n: nat, ok: bool, after: seq<Extent>)
    requires n > 0 && pool.allocatedPages >= n && Inside(pool.regions, page, n) && !Overlaps(pool.extents, page, n)
    requires Returned(pool.extents, page, n, ok, after)
    ensures Deallocate(pool, page, n) ==
      (Pool(pool.regions, after, if ok then pool.allocatedPages - n else pool.allocatedPages), ok)
  {
    hide Inside, Overlaps, GiveBack;
  }

  lemma PoolMerged(pool: Pool)
    requires PoolOk(pool)
    ensures Merged(pool.extents)
  {
  }

  lemma BeyondTop(pool: Pool, page: nat, n: nat)
    requires PoolOk(pool) && Addressable(pool.regions) && (page + n) * PAGE > TOP
    ensures !Inside(pool.regions, page, n)
  {
  }

  lemma {:induction false} KeptTwice(a: seq<Region>, b: seq<Region>)
    ensures Kept(Kept(a) + b) == Kept(a + b)
  {
    if |a| >= MAX_REGIONS {
      assert (a + b)[..MAX_REGIONS] == a[..MAX_REGIONS];
      assert (Kept(a) + b)[..MAX_REGIONS] == Kept(a);
      assert a[..MAX_REGIONS] == Kept(a);
      if |a + b| == MAX_REGIONS {
        assert (a + b)[..MAX_REGIONS] == a + b;
      }
    }
  }

  lemma MergeIsSplice(es: seq<Extent>, i: nat, e: Extent)
    requires i + 1 < |es|
    ensures Splice(es[i := e], i + 1, i + 2, []) == Splice(es, i, i + 2, [e])
    ensures Splice(es, i, i + 2, [e])[..i + 1] == es[..i] + [e]
  {
    var es' := es[i := e];
    assert es'[..i + 1] == es[..i] + [e];
    assert es'[i + 2..] == es[i + 2..];
  }

  /** The first `index` extents each keep a gap to the next. */
  ghost predicate Stepped(es: seq<Extent>, index: nat)
  {
    forall i :: 0 <= i < index && i + 1 < |es| ==> EndOf(es[i]) < es[i + 1].start
  }

  lemma NoSteps(es: seq<Extent>)
    ensures Stepped(es, 0)
  {
  }

  /** Moving on past a gap, or merging two extents that touch, keeps the gaps so far; a
      merged table has nothing to merge. */
  lemma OneStep(es: seq<Extent>, index: nat)
    requires Sorted(es) && Stepped(es, index) && index + 1 < |es|
    ensures EndOf(es[index]) != es[index + 1].start ==> Stepped(es, index + 1)
    ensures EndOf(es[index]) == es[index + 1].start ==>
      && !Merged(es)
      && Stepped(Splice(es, index, index + 2, [Extent(es[index].start, es[index].count + es[index + 1].count)]), index)
  {
    if EndOf(es[index]) == es[index + 1].start {
      var e := Extent(es[index].start, es[index].count + es[index + 1].count);
      var r := Splice(es, index, index + 2, [e]);
      forall i | 0 <= i < index && i + 1 < |r|
        ensures EndOf(r[i]) < r[i + 1].start
      {
        assert EndOf(es[i]) < es[i + 1].start;
      }
    }
  }

  lemma StepsAreMerged(es: seq<Extent>, index: nat)
    requires Sorted(es) && Stepped(es, index) && index + 1 >= |es|
    ensures Merged(es)
  {
    forall i, j | 0 <= i < j < |es|
      ensures EndOf(es[i]) < es[j].start
    {
      assert EndOf(es[i]) < es[i + 1].start;
      if i + 1 < j {
        assert EndOf(es[i + 1]) <= es[j].start;
      }
    }
  }

  lemma FreshPool(rs: seq<Region>)
    requires Apart(rs) && forall i :: 0 <= i < |rs| ==> rs[i].next == 0
    ensures PoolOk(Pool(rs, [], 0)) && Live(Pool(rs, [], 0)) == {}
  {
    assert Pages([]) == {};
    hide Pages;
    var us := Used(rs);
    forall p: nat
      ensures p !in Pages(us)
    {
      PagesMember(us, p);
    }
    assert Pages(us) == {};
  }

  lemma TableReady(memory: seq<MemoryRegion>, reserved: seq<Reserved>)
    requires DisjointMap(memory) && |memory| <= MAX_MEMORY_REGIONS && |reserved| <= MAX_RESERVED
    ensures var rs := Table(memory, reserved);
      Kept(rs) == rs && Addressable(rs) && PoolOk(Pool(rs, [], 0)) && Live(Pool(rs, [], 0)) == {}
  {
    var rs := Table(memory, reserved);
    hide Table, DisjointMap, PoolOk, Live;
    TableFits(memory, reserved);
    TableApart(memory, reserved);
    forall i | 0 <= i < |rs|
      ensures rs[i].next == 0 && (rs[i].start + rs[i].count) * PAGE <= TOP
    {
      assert FromEntry(rs[i], memory);
    }
    FreshPool(rs);
  }

  lemma NothingYet(before: seq<Region>)
    requires |before| <= MAX_REGIONS
    ensures before == Kept(before + RegionsOf([]))
    ensures before == Kept(before)
    ensures SumCounts([]) == 0
  {
    assert before + [] == before;
  }
}
