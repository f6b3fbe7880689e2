/** The reclaiming heap as it runs on its own storage. */
module Heap {
  import opened Arith
  import opened Bytes
  import opened Wrappers
  import opened HeapTiles
  import opened HeapSteps

  // ----- What the counters count

  function UsedBytes(ts: seq<Tile>): nat
  {
    if ts == [] then 0 else (if ts[0].Live? then ts[0].size else 0) + UsedBytes(ts[1..])
  }

  function FreeBytes(ts: seq<Tile>): nat
  {
    if ts == [] then 0 else (if ts[0].Free? then ts[0].size else 0) + FreeBytes(ts[1..])
  }

  function LiveCount(ts: seq<Tile>): nat
  {
    if ts == [] then 0 else (if ts[0].Live? then 1 else 0) + LiveCount(ts[1..])
  }

  /** Used and free bytes always make up the whole heap. */
  lemma {:induction false} Conservation(ts: seq<Tile>, from: nat, to: nat)
    requires Tiling(ts, from, to)
    ensures from + UsedBytes(ts) + FreeBytes(ts) == to
  {
    if ts != [] {
      Conservation(ts[1..], EndOf(ts[0]), to);
    }
  }

  lemma {:induction false} SumsAppend(a: seq<Tile>, b: seq<Tile>)
    ensures UsedBytes(a + b) == UsedBytes(a) + UsedBytes(b) && LiveCount(a + b) == LiveCount(a) + LiveCount(b)
  {
    if a == [] {
      assert a + b == b;
    } else {
      assert (a + b)[1..] == a[1..] + b;
      SumsAppend(a[1..], b);
    }
  }

  lemma SumsAt(ts: seq<Tile>, k: nat, mid: seq<Tile>)
    requires k < |ts|
    ensures UsedBytes(ts[..k] + mid + ts[k + 1..])
      == UsedBytes(ts) - (if ts[k].Live? then ts[k].size else 0) + UsedBytes(mid)
    ensures LiveCount(ts[..k] + mid + ts[k + 1..]) == LiveCount(ts) - (if ts[k].Live? then 1 else 0) + LiveCount(mid)
  {
    SumsAppend(ts[..k] + mid, ts[k + 1..]);
    SumsAppend(ts[..k], mid);
    SumsAppend(ts[..k] + [ts[k]], ts[k + 1..]);
    SumsAppend(ts[..k], [ts[k]]);
    assert ts == ts[..k] + [ts[k]] + ts[k + 1..];
    assert [ts[k]][1..] == [];
  }

  lemma CarveSums(ts: seq<Tile>, k: nat, user: nat, requested: nat, allocEnd: nat)
    requires k < |ts| && ts[k].Free? && ts[k].start <= allocEnd <= EndOf(ts[k])
    ensures UsedBytes(Carve(ts, k, user, requested, allocEnd)) == UsedBytes(ts) + allocEnd - ts[k].start
    ensures LiveCount(Carve(ts, k, user, requested, allocEnd)) == LiveCount(ts) + 1
  {
    var mid := [Live(ts[k].start, allocEnd - ts[k].start, user, requested)] + Suffix(ts[k], allocEnd);
    assert mid[1..] == Suffix(ts[k], allocEnd);
    assert allocEnd < EndOf(ts[k]) ==> Suffix(ts[k], allocEnd)[1..] == [];
    assert UsedBytes(Suffix(ts[k], allocEnd)) == 0 && LiveCount(Suffix(ts[k], allocEnd)) == 0;
    SumsAt(ts, k, mid);
  }

  lemma MergeSums(ts: seq<Tile>, k: nat)
    requires k + 1 < |ts| && ts[k].Free? && ts[k + 1].Free?
    ensures UsedBytes(Merge(ts, k)) == UsedBytes(ts) && LiveCount(Merge(ts, k)) == LiveCount(ts)
  {
    var joined := [Free(ts[k].start, ts[k].size + ts[k + 1].size)];
    var pair := [ts[k], ts[k + 1]];
    SumsAppend(ts[..k] + joined, ts[k + 2..]);
    SumsAppend(ts[..k], joined);
    SumsAppend(ts[..k] + pair, ts[k + 2..]);
    SumsAppend(ts[..k], pair);
    assert ts == ts[..k] + pair + ts[k + 2..];
    assert joined[1..] == [] && pair[1..] == [ts[k + 1]] && [ts[k + 1]][1..] == [];
    assert UsedBytes([ts[k + 1]]) == 0 && LiveCount([ts[k + 1]]) == 0;
  }

  lemma FreedSums(ts: seq<Tile>, k: nat)
    requires k < |ts| && ts[k].Live?
    ensures UsedBytes(Freed(ts, k)) == UsedBytes(ts) - ts[k].size && LiveCount(Freed(ts, k)) == LiveCount(ts) - 1
  {
    var f := [Free(ts[k].start, ts[k].size)];
    SumsAt(ts, k, f);
    assert f[1..] == [];
    assert Freed(ts, k) == ts[..k] + f + ts[k + 1..];
  }

  lemma ReleaseSums(ts: seq<Tile>, k: nat)
    requires k < |ts| && ts[k].Live?
    ensures UsedBytes(Release(ts, k)) == UsedBytes(ts) - ts[k].size && LiveCount(Release(ts, k)) == LiveCount(ts) - 1
  {
    hide UsedBytes, LiveCount, Merge;
    FreedSums(ts, k);
    var ts1 := Freed(ts, k);
    if k + 1 < |ts1| && ts1[k + 1].Free? {
      MergeSums(ts1, k);
    }
    var ts2 := JoinNext(ts1, k);
    assert ts2[k].Free?;
    if k > 0 && ts2[k - 1].Free? {
      MergeSums(ts2, k - 1);
    }
  }

  /** When nothing is live any more, one free block spans the whole heap. */
  lemma AllReleased(m: seq<byte>, head: nat, ts: seq<Tile>)
    requires HeapOk(m, head, ts) && LiveCount(ts) == 0 && |m| > 0
    ensures ts == [Free(0, |m|)] && head == 0 && UsedBytes(ts) == 0 && FreeBytes(ts) == |m|
  {
    NoneLive(ts);
    assert |ts| == 1;
    assert ts[1..] == [];
    Conservation(ts, 0, |m|);
    assert ts == [ts[0]];
  }

  lemma {:induction false} NoneLive(ts: seq<Tile>)
    requires LiveCount(ts) == 0
    ensures forall i :: 0 <= i < |ts| ==> ts[i].Free?
  {
    if ts != [] {
      NoneLive(ts[1..]);
      assert forall i :: 0 < i < |ts| ==> ts[i] == ts[1..][i - 1];
    }
  }

  // ----- Placement

  function Max(a: nat, b: nat): nat
  {
    if a > b then a else b
  }

  function Saturate(n: nat): nat
  {
    if n < U64_LIMIT then n else U64_LIMIT - 1
  }

  /** A layout's alignment: a power of two, so one of 1, 2, 4 or a multiple of 8. */
  predicate Alignment(align: nat)
  {
    align == 1 || align == 2 || align == 4 || (align > 0 && align % 8 == 0)
  }

  function RoundUp(value: nat, align: nat): (r: nat)
    requires align > 0
    ensures value <= r < value + align && r % align == 0
  {
    var q := (value + align - 1) / align;
    RoundUpExact(value, align);
    q * align
  }

  lemma RoundUpExact(value: nat, align: nat)
    requires align > 0
    ensures var r := (value + align - 1) / align * align; value <= r < value + align && r % align == 0
  {
    var v := value + align - 1;
    var q := v / align;
    assert v == align * q + v % align;
    assert q * align == align * q;
    DivModUnique(q * align, align, q, 0);
  }

  /** Where a free tile would place an allocation. */
  function UserStart(t: Tile, align: nat): (u: nat)
    requires align > 0
    ensures u >= t.start + LIVE_HEADER && u % align == 0
  {
    RoundUp(t.start + LIVE_HEADER, align)
  }

  predicate Holds(t: Tile, requested: nat, align: nat)
    requires align > 0
  {
    t.Free? && UserStart(t, align) + requested <= EndOf(t)
  }

  /** Rounding the start of the tile up overflows a machine word. */
  predicate Overflows(t: Tile, align: nat)
  {
    t.Free? && t.start + LIVE_HEADER + align - 1 >= U64_LIMIT
  }

  /** Where the allocation ends: at the next multiple of eight if a free block fits
      behind it, at the end of the tile otherwise. */
  function AllocEnd(t: Tile, user: nat, requested: nat): (e: nat)
    requires t.Free? && user + requested <= EndOf(t)
  {
    var suffix := RoundUp(user + requested, 8);
    if suffix + FREE_HEADER <= EndOf(t) then suffix else EndOf(t)
  }

  lemma AllocEndPlaces(t: Tile, user: nat, requested: nat)
    requires t.Free? && GoodTile(t) && t.start + LIVE_HEADER <= user && requested > 0 && user + requested <= EndOf(t)
    ensures Placement(t, user, requested, AllocEnd(t, user, requested))
  {
    hide RoundUp;
    Multiples(t.start, t.size);
  }

  // ----- The allocator

  class ReclaimingHeap {
    /** Address of the storage. */
    const base: nat
    const storage: array<byte>
    var freeHead: nat
    var usedBytes: nat
    var peakUsedBytes: nat
    var liveAllocations: nat
    var totalAllocations: nat
    var totalDeallocations: nat
    var failedAllocations: nat
    ghost var tiles: seq<Tile>

    ghost predicate Valid()
      reads this, storage
    {
      && 0 < base && base + storage.Length < U64_LIMIT
      && HeapOk(storage[..], freeHead, tiles)
      && usedBytes == UsedBytes(tiles) && liveAllocations == LiveCount(tiles)
    }

    /** The live tile whose address was handed out as `pointer`. */
    ghost predicate Owns(pointer: nat, k: nat)
      reads this
    {
      k < |tiles| && tiles[k].Live? && pointer == base + tiles[k].user
    }

    constructor (base: nat, capacity: nat)
      requires 0 < base && base + capacity < U64_LIMIT && capacity >= FREE_HEADER && capacity % 8 == 0
      ensures Valid() && fresh(storage) && storage.Length == capacity && this.base == base
      ensures tiles == [Free(0, capacity)] && usedBytes == 0
    {
      var buffer := new byte[capacity](_ => 0);
      this.base := base;
      storage := buffer;
      freeHead := 0;
      usedBytes, peakUsedBytes, liveAllocations := 0, 0, 0;
      totalAllocations, totalDeallocations, failedAllocations := 0, 0, 0;
      tiles := [Free(0, capacity)];
      new;
      WriteFreeBlock(0, capacity, END);
      PutBlockReads(seq(capacity, _ => 0), 0, capacity, END);
      SingleBlock(storage[..], capacity);
    }

    method ReadWord(at: nat) returns (v: u64)
      requires at + 8 <= storage.Length
      ensures v == U64At(storage[..], at)
    {
      v := FromLe32(storage[at], storage[at + 1], storage[at + 2], storage[at + 3])
         + U32_LIMIT * FromLe32(storage[at + 4], storage[at + 5], storage[at + 6], storage[at + 7]);
    }

    method WriteFreeBlock(at: nat, size: u64, next: u64)
      requires at + FREE_HEADER <= storage.Length
      modifies storage
      ensures storage[..] == PutBlock(old(storage[..]), at, size, next)
    {
      PutField(storage, at, LeU64(size));
      PutField(storage, at + 8, LeU64(next));
    }

    /** Lets the list lead to `target` behind `previous`. */
    method Redirect(previous: nat, target: u64)
      requires previous == END || previous + FREE_HEADER <= storage.Length
      modifies storage, this`freeHead
      ensures storage[..] == Relink(old(storage[..]), previous, target)
      ensures freeHead == RelinkHead(old(freeHead), previous, target)
    {
      if previous == END {
        freeHead := target;
      } else {
        PutField(storage, previous + 8, LeU64(target));
      }
    }

    method WriteHeader(at: nat, magic: u64, start: u64, size: u64, requested: u64)
      requires at + LIVE_HEADER <= storage.Length
      modifies storage
      ensures storage[..] == PutHeader(old(storage[..]), at, magic, start, size, requested)
    {
      PutField(storage, at, LeU64(magic) + LeU64(start) + LeU64(size) + LeU64(requested));
    }

    /** Carves the allocation out of the free block at the cursor. */
    method TakeBlock(previous: nat, current: nat, blockEnd: nat, next: u64, userStart: nat, requested: nat,
                     ghost p: int, ghost k: nat)
      requires Valid() && k < |tiles| && Cursor(storage[..], freeHead, tiles, previous, current, p, k)
      requires tiles[k].Free? && tiles[k].start == current && EndOf(tiles[k]) == blockEnd && GoodTile(tiles[k])
      requires current + FREE_HEADER <= storage.Length && next == NextField(storage[..], current)
      requires current + LIVE_HEADER <= userStart && requested > 0 && userStart + requested <= blockEnd
      modifies this, storage
      ensures Valid()
      ensures tiles == Carve(old(tiles), k, userStart, requested, AllocEnd(old(tiles)[k], userStart, requested))
      ensures OthersKept(old(storage[..]), storage[..], old(tiles), tiles, k)
      ensures usedBytes > old(usedBytes) && liveAllocations == old(liveAllocations) + 1
    {
      hide HeapOk, Cursor, UsedBytes, LiveCount, NextField, Carve, OthersKept, CarveBytes, PutHeader, PutBlock, Relink,
        RoundUp, GoodTile;
      var suffix := RoundUp(userStart + requested, 8);
      var keepSuffix := suffix + FREE_HEADER <= blockEnd;
      var allocatedEnd := if keepSuffix then suffix else blockEnd;
      Carving(storage[..], freeHead, tiles, previous, p, k, userStart, requested, allocatedEnd);
      CarveSums(tiles, k, userStart, requested, allocatedEnd);
      if keepSuffix {
        WriteFreeBlock(suffix, blockEnd - suffix, next);
      }
      Redirect(previous, if keepSuffix then suffix else next);
      WriteHeader(userStart - LIVE_HEADER, MAGIC, current, allocatedEnd - current, requested);
      CarveBytesIs(old(storage[..]), tiles[k], next, previous, userStart, requested, allocatedEnd, storage[..]);
      usedBytes := usedBytes + (allocatedEnd - current);
      peakUsedBytes := Max(peakUsedBytes, usedBytes);
      liveAllocations := liveAllocations + 1;
      totalAllocations := Saturate(totalAllocations + 1);
      tiles := Carve(tiles, k, userStart, requested, allocatedEnd);
    }

    /** Takes the first free block that is large enough. Offsets are aligned, so the address is
        exactly if the storage is. */
    method Allocate(size: nat, align: nat) returns (r: Option<nat>)
      requires Valid() && size < U64_LIMIT && Alignment(align) && align < U64_LIMIT
      modifies this, storage
      ensures Valid()
      ensures r.None? ==> tiles == old(tiles) && storage[..] == old(storage[..])
      ensures r.None? ==> forall i :: 0 <= i < |tiles| ==>
        !Holds(tiles[i], Max(size, 1), Max(align, 8)) || exists j :: 0 <= j <= i && Overflows(tiles[j], Max(align, 8))
      ensures r.Some? ==>
        Allocated(old(storage[..]), storage[..], old(tiles), tiles, r.value - base, Max(size, 1), Max(align, 8))
      ensures r.Some? ==> r.value >= base && (r.value % Max(align, 8) == 0 <==> base % Max(align, 8) == 0)
      ensures r.Some? ==> r.value < base + storage.Length
      ensures r.Some? ==> usedBytes > old(usedBytes) && liveAllocations == old(liveAllocations) + 1
    {
      hide HeapOk, Cursor, UsedBytes, LiveCount, SizeField, NextField, U64At, Carve, OthersKept, CarveBytes,
        PutHeader, PutBlock, Relink, RoundUp;
      var requested := Max(size, 1);
      var alignment := Max(align, 8);
      var previous: nat := END;
      var current: nat := freeHead;
      ghost var p: int := -1;
      OkSegment(storage[..], freeHead, tiles);
      ghost var k := CursorStart(storage[..], freeHead, tiles);
      CursorGap(storage[..], freeHead, tiles, END, freeHead, -1, k);
      while current != END
        invariant Valid() && tiles == old(tiles) && storage[..] == old(storage[..]) && freeHead == old(freeHead)
        invariant usedBytes == old(usedBytes) && liveAllocations == old(liveAllocations)
        invariant Cursor(storage[..], freeHead, tiles, previous, current, p, k) && -1 <= p < k <= |tiles|
        invariant forall i :: 0 <= i < k ==> !Holds(tiles[i], requested, alignment)
        decreases |tiles| - k
      {
        CursorBlock(storage[..], freeHead, tiles, previous, current, p, k);
        ghost var k' := CursorNext(storage[..], freeHead, tiles, previous, current, p, k);
        var blockSize := ReadBlockSize(current);
        var next := ReadBlockNext(current);
        var blockEnd := current + blockSize;
        if current + LIVE_HEADER + alignment - 1 >= U64_LIMIT {
          failedAllocations := Saturate(failedAllocations + 1);
          assert Overflows(tiles[k], alignment);
          return None;
        }
        var userStart := RoundUp(current + LIVE_HEADER, alignment);
        if userStart + requested <= blockEnd {
          TakeBlock(previous, current, blockEnd, next, userStart, requested, p, k);
          TakenFrom(old(storage[..]), storage[..], old(tiles), tiles, k, userStart, requested, alignment);
          AddressAligned(base, userStart, alignment);
          return Some(base + userStart);
        }
        CursorGap(storage[..], freeHead, tiles, current, next, k, k');
        p, k := k, k';
        previous, current := current, next;
      }
      failedAllocations := Saturate(failedAllocations + 1);
      CursorEnd(storage[..], freeHead, tiles, previous, p, k);
      r := None;
    }

    /** What the allocator does not take for one of its allocations: a null pointer, an
        address out of range, or one without a header of a block inside the storage. */
    ghost predicate Ignored(pointer: nat)
      reads this, storage
    {
      || pointer < base + LIVE_HEADER || pointer > base + storage.Length
      || (var header := pointer - base - LIVE_HEADER;
          var m := storage[..];
          || U64At(m, header) != MAGIC || U64At(m, header + 8) >= |m| || U64At(m, header + 16) == 0
          || U64At(m, header + 8) + U64At(m, header + 16) > |m|)
    }

    /** Gives a live allocation back, and ignores what is none. */
    method Deallocate(pointer: nat, ghost k: nat)
      requires Valid() && (Ignored(pointer) || Owns(pointer, k))
      modifies this, storage
      ensures Valid()
      ensures old(Ignored(pointer)) ==>
        tiles == old(tiles) && storage[..] == old(storage[..]) && usedBytes == old(usedBytes)
        && liveAllocations == old(liveAllocations)
      ensures old(Owns(pointer, k)) ==> !old(Ignored(pointer))
      ensures old(Owns(pointer, k)) ==>
        tiles == Release(old(tiles), k) && LiveKept(old(storage[..]), storage[..], tiles)
      ensures old(Owns(pointer, k)) ==> SameLive(Freed(old(tiles), k), tiles)
      ensures old(Owns(pointer, k)) ==>
        usedBytes == old(usedBytes) - old(tiles)[k].size && liveAllocations == old(liveAllocations) - 1
    {
      hide HeapOk, UsedBytes, LiveCount, HeaderOk, PutHeader, Release, LiveKept, SameLive, Freed, U64At;
      if Owns(pointer, k) {
        OwnedIsAccepted(storage[..], freeHead, tiles, k);
      }
      if pointer == 0 {
        return;
      }
      if pointer < base + LIVE_HEADER || pointer > base + storage.Length {
        return;
      }
      var header := pointer - base - LIVE_HEADER;
      var magic := ReadWord(header);
      var blockStart := ReadWord(header + 8);
      var blockSize := ReadWord(header + 16);
      if magic != MAGIC || blockStart >= storage.Length || blockSize == 0 || blockStart + blockSize > storage.Length {
        return;
      }
      ghost var before := storage[..];
      HeaderCleared(before, freeHead, tiles, k);
      WriteHeader(header, 0, 0, 0, 0);
      InsertFreeBlock(blockStart, blockSize, k, before);
      ReleaseSums(tiles, k);
      tiles := Release(tiles, k);
      usedBytes := usedBytes - blockSize;
      liveAllocations := liveAllocations - 1;
      totalDeallocations := Saturate(totalDeallocations + 1);
    }

    /** Puts the block of tile `k` into the list at its place and joins it with the
        free blocks it touches. */
    method InsertFreeBlock(blockStart: nat, blockSize: u64, ghost k: nat, ghost before: seq<byte>)
      requires Cleared(before, storage[..], freeHead, tiles, k)
      requires blockStart == tiles[k].start && blockSize == tiles[k].size
      modifies storage, this`freeHead
      ensures HeapOk(storage[..], freeHead, Release(tiles, k)) && LiveKept(before, storage[..], Release(tiles, k))
      ensures SameLive(Freed(tiles, k), Release(tiles, k))
    {
      hide HeapOk, Cleared, Cursor, SizeField, NextField, PutBlock, Relink, Release, LiveKept, SameLive, Behind, Seg,
        Tiling, Merge, HeaderOk, Coalesced, OnlyTile, Freed;
      ghost var m0, head0 := storage[..], freeHead;
      ClearedFacts(before, m0, head0, tiles, k);
      var previous: nat := END;
      var current: nat := freeHead;
      ghost var p: int := -1;
      ghost var c := CursorStart(m0, head0, tiles);
      while current != END && current < blockStart
        invariant storage[..] == m0 && freeHead == head0
        invariant Cursor(m0, head0, tiles, previous, current, p, c) && p < k
        decreases |tiles| - c
      {
        CursorBefore(m0, head0, tiles, previous, current, p, c, k);
        ghost var c' := CursorNext(m0, head0, tiles, previous, current, p, c);
        p, c := c, c';
        previous := current;
        current := ReadBlockNext(current);
      }
      CursorPast(m0, head0, tiles, previous, current, p, c, k);
      CursorAt(m0, head0, tiles, previous, current, p, c, k);
      CursorPrevious(m0, head0, tiles, previous, current, p, k);
      NextTouches(m0, head0, tiles, previous, current, p, c, k);
      PreviousTouches(m0, head0, tiles, previous, current, p, k);
      InsertList(m0, head0, tiles, previous, current, p, k);
      WriteFreeBlock(blockStart, blockSize, current);
      Redirect(previous, blockStart);
      ghost var ts1 := Freed(tiles, k);
      Inserted(before, m0, storage[..], tiles, k, previous, p);
      assert Midway(before, storage[..], freeHead, ts1);
      hide Midway;
      FreedFacts(tiles, k);
      if current != END && blockStart + blockSize == current {
        MergeOk(before, storage[..], freeHead, ts1, k);
        var nextSize := ReadBlockSize(current);
        var nextNext := ReadBlockNext(current);
        WriteFreeBlock(blockStart, blockSize + nextSize, nextNext);
      } else {
        SameLiveItself(ts1);
      }
      ghost var ts2 := JoinNext(ts1, k);
      assert Midway(before, storage[..], freeHead, ts2) && SameLive(ts1, ts2);
      JoinedFacts(tiles, k);
      if previous != END {
        FreeSize(before, storage[..], freeHead, ts2, p);
        var previousSize := ReadBlockSize(previous);
        if previous + previousSize == blockStart {
          MergeOk(before, storage[..], freeHead, ts2, k - 1);
          var insertedSize := ReadBlockSize(blockStart);
          var insertedNext := ReadBlockNext(blockStart);
          WriteFreeBlock(previous, previousSize + insertedSize, insertedNext);
          SameLiveThrough(ts1, ts2, Merge(ts2, k - 1));
        }
      }
      ReleaseIs(tiles, k);
      ReleasedOk(before, storage[..], freeHead, head0, tiles, k);
      assert LiveKept(before, storage[..], Release(tiles, k)) by {
        MidwayKept(before, storage[..], freeHead, Release(tiles, k));
      }
    }

    /** Walks the free list and adds up what it finds: all the free bytes there are,
        and the size of the largest free block. */
    method Statistics() returns (freeBytes: nat, largest: nat)
      requires Valid()
      ensures freeBytes == FreeBytes(tiles) && freeBytes + usedBytes == storage.Length
      ensures forall i :: 0 <= i < |tiles| && tiles[i].Free? ==> tiles[i].size <= largest
      ensures largest == 0 || exists i :: 0 <= i < |tiles| && tiles[i].Free? && tiles[i].size == largest
    {
      hide HeapOk, Cursor, FreeBytes, UsedBytes, LiveCount, SizeField, NextField;
      freeBytes, largest := 0, 0;
      var current: nat := freeHead;
      ghost var previous, p: int := END, -1;
      OkSegment(storage[..], freeHead, tiles);
      ghost var k := CursorStart(storage[..], freeHead, tiles);
      CursorGap(storage[..], freeHead, tiles, END, freeHead, -1, k);
      FreeBytesOfLive(tiles, 0, k);
      while current != END
        invariant 0 <= previous && Cursor(storage[..], freeHead, tiles, previous, current, p, k)
        invariant -1 <= p < k <= |tiles|
        invariant freeBytes == FreeBytes(tiles[..k])
        invariant forall i :: 0 <= i < k && tiles[i].Free? ==> tiles[i].size <= largest
        invariant largest == 0 || exists i :: 0 <= i < k && tiles[i].Free? && tiles[i].size == largest
        decreases |tiles| - k
      {
        CursorBlock(storage[..], freeHead, tiles, previous, current, p, k);
        ghost var k' := CursorNext(storage[..], freeHead, tiles, previous, current, p, k);
        var size := ReadBlockSize(current);
        var next := ReadBlockNext(current);
        CursorGap(storage[..], freeHead, tiles, current, next, k, k');
        FreeBytesStep(tiles, k, k');
        freeBytes := freeBytes + size;
        largest := Max(largest, size);
        previous, p, k := current, k, k';
        current := next;
      }
      CursorEnd(storage[..], freeHead, tiles, previous, p, k);
      assert tiles[..|tiles|] == tiles;
      Conservation(tiles, 0, storage.Length);
    }

    method ReadBlockSize(at: nat) returns (v: u64)
      requires at + FREE_HEADER <= storage.Length
      ensures v == SizeField(storage[..], at)
    {
      v := ReadWord(at);
    }

    method ReadBlockNext(at: nat) returns (v: u64)
      requires at + FREE_HEADER <= storage.Length
      ensures v == NextField(storage[..], at)
    {
      v := ReadWord(at + 8);
    }
  }

  /** The tiling after an allocation was carved out of tile `k`, the first that fits. */
  ghost predicate Taken(before: seq<Tile>, after: seq<Tile>, k: nat, user: int, requested: nat, align: nat)
    requires align > 0
  {
    && k < |before| && Holds(before[k], requested, align) && user == UserStart(before[k], align)
    && (forall i :: 0 <= i < k ==> !Holds(before[i], requested, align))
    && after == Carve(before, k, user, requested, AllocEnd(before[k], user, requested))
  }

  /** Some tile was taken, and every other live allocation kept its bytes. */
  ghost predicate Allocated(m: seq<byte>, m': seq<byte>, before: seq<Tile>, after: seq<Tile>, user: int, requested: nat,
                            align: nat)
    requires align > 0
  {
    exists k: nat :: Taken(before, after, k, user, requested, align) && OthersKept(m, m', before, after, k)
  }

  lemma SingleBlock(m: seq<byte>, capacity: nat)
    requires |m| == capacity < END && capacity >= FREE_HEADER && capacity % 8 == 0
    requires SizeField(m, 0) == capacity && NextField(m, 0) == END
    ensures HeapOk(m, 0, [Free(0, capacity)])
    ensures UsedBytes([Free(0, capacity)]) == 0 && LiveCount([Free(0, capacity)]) == 0
  {
    hide SizeField, NextField;
    var ts := [Free(0, capacity)];
    assert ts[1..] == [];
    assert Tiling([], capacity, capacity);
    OneBlock(m, ts[0], END);
  }

  lemma OkSegment(m: seq<byte>, head: nat, ts: seq<Tile>)
    requires HeapOk(m, head, ts)
    ensures Seg(m, head, ts, END) && |m| < END && Tiling(ts, 0, |m|)
  {
  }

  lemma CursorBlock(m: seq<byte>, head: nat, ts: seq<Tile>, previous: nat, current: nat, p: int, k: nat)
    requires HeapOk(m, head, ts) && Cursor(m, head, ts, previous, current, p, k) && current != END
    ensures k < |ts| && ts[k].Free? && ts[k].start == current && GoodTile(ts[k]) && EndOf(ts[k]) <= |m| < END
    ensures previous == END || previous + FREE_HEADER <= |m|
  {
    hide Tiling, Seg, HeaderOk, Coalesced;
    TilesInside(ts, 0, |m|, k);
    CursorPrevious(m, head, ts, previous, current, p, k);
  }

  lemma CursorGap(m: seq<byte>, head: nat, ts: seq<Tile>, previous: nat, current: nat, p: int, k: nat)
    requires Cursor(m, head, ts, previous, current, p, k)
    ensures -1 <= p < k <= |ts| && forall i :: p < i < k ==> ts[i].Live?
  {
    hide Seg, SizeField, NextField;
    var gap := if p < 0 then ts[..k] else ts[p + 1..k];
    assert forall i :: p < i < k ==> ts[i] == gap[i - (p + 1)];
  }

  lemma CursorEnd(m: seq<byte>, head: nat, ts: seq<Tile>, previous: nat, p: int, k: nat)
    requires HeapOk(m, head, ts) && Cursor(m, head, ts, previous, END, p, k)
    ensures k == |ts|
  {
    hide Tiling, Seg, HeaderOk, Coalesced;
    if k < |ts| {
      TilesInside(ts, 0, |m|, k);
    }
  }

  lemma Carving(m: seq<byte>, head: nat, ts: seq<Tile>, previous: nat, p: int, k: nat, user: nat, requested: nat,
                allocEnd: nat)
    requires HeapOk(m, head, ts) && k < |ts| && ts[k].Free? && Cursor(m, head, ts, previous, ts[k].start, p, k)
    requires GoodTile(ts[k]) && ts[k].start + LIVE_HEADER <= user && requested > 0 && user + requested <= EndOf(ts[k])
    requires allocEnd == AllocEnd(ts[k], user, requested)
    ensures ts[k].start <= allocEnd <= EndOf(ts[k]) <= |m| < END && LIVE_HEADER <= user <= |m| && requested <= |m|
    ensures allocEnd < EndOf(ts[k]) ==> allocEnd + FREE_HEADER <= EndOf(ts[k])
    ensures allocEnd > ts[k].start && ts[k].start + FREE_HEADER <= |m|
    ensures previous == END || previous + FREE_HEADER <= |m|
    ensures var next := NextField(m, ts[k].start);
      var m' := CarveBytes(m, ts[k], next, previous, user, requested, allocEnd);
      var target := if allocEnd < EndOf(ts[k]) then allocEnd else next;
      var ts' := Carve(ts, k, user, requested, allocEnd);
      && HeapOk(m', RelinkHead(head, previous, target), ts')
      && OthersKept(m, m', ts, ts', k)
  {
    AllocEndPlaces(ts[k], user, requested);
    hide HeapOk, Cursor, CarveBytes, Carve, OthersKept, NextField, AllocEnd;
    CarveOk(m, head, ts, previous, p, k, user, requested, allocEnd);
  }

  lemma CarveBytesIs(m: seq<byte>, t: Tile, next: u64, previous: nat, user: nat, requested: nat, allocEnd: nat,
                     r: seq<byte>)
    requires t.start <= allocEnd <= EndOf(t) <= |m| < END && LIVE_HEADER <= user <= |m| && requested <= |m|
    requires allocEnd < EndOf(t) ==> allocEnd + FREE_HEADER <= EndOf(t)
    requires previous == END || previous + FREE_HEADER <= |m|
    requires r == PutHeader(Relink(if allocEnd < EndOf(t) then PutBlock(m, allocEnd, EndOf(t) - allocEnd, next) else m,
                                   previous, if allocEnd < EndOf(t) then allocEnd else next),
                            user - 32, MAGIC, t.start, allocEnd - t.start, requested)
    ensures r == CarveBytes(m, t, next, previous, user, requested, allocEnd)
  {
    hide PutHeader, Relink, PutBlock;
  }

  lemma TakenFrom(m: seq<byte>, m': seq<byte>, before: seq<Tile>, after: seq<Tile>, k: nat, user: nat, requested: nat,
                  align: nat)
    requires align > 0 && k < |before| && Holds(before[k], requested, align) && user == UserStart(before[k], align)
    requires forall i :: 0 <= i < k ==> !Holds(before[i], requested, align)
    requires after == Carve(before, k, user, requested, AllocEnd(before[k], user, requested))
    requires OthersKept(m, m', before, after, k)
    ensures Allocated(m, m', before, after, user, requested, align)
  {
    hide Carve, OthersKept, Holds, UserStart, AllocEnd;
    assert Taken(before, after, k, user, requested, align);
  }

  // ----- Release, step by step

  /** The header of live tile `k` has been overwritten; all else is as `before`. */
  ghost predicate Cleared(before: seq<byte>, m: seq<byte>, head: nat, ts: seq<Tile>, k: nat)
  {
    && HeapOk(before, head, ts) && k < |ts| && ts[k].Live?
    && |m| == |before| && Seg(m, head, ts, END)
    && forall i :: 0 <= i < |ts| && i != k && ts[i].Live? ==> SameBytes(before, m, ts[i].start, ts[i].size)
  }

  lemma OwnedTile(m: seq<byte>, head: nat, ts: seq<Tile>, k: nat)
    requires HeapOk(m, head, ts) && k < |ts| && ts[k].Live?
    ensures GoodTile(ts[k]) && EndOf(ts[k]) <= |m| < END && ts[k].user <= |m| && LIVE_HEADER <= ts[k].user
    ensures HeaderOk(m, ts[k])
  {
    hide HeaderOk, Seg, Tiling, Coalesced;
    TilesInside(ts, 0, |m|, k);
  }

  /** The header of a live tile passes every check of a deallocation. */
  lemma OwnedIsAccepted(m: seq<byte>, head: nat, ts: seq<Tile>, k: nat)
    requires HeapOk(m, head, ts) && k < |ts| && ts[k].Live?
    ensures LIVE_HEADER <= ts[k].user <= |m| && 0 < ts[k].size && EndOf(ts[k]) <= |m|
    ensures U64At(m, ts[k].user - 32) == MAGIC && U64At(m, ts[k].user - 24) == ts[k].start < |m|
    ensures U64At(m, ts[k].user - 16) == ts[k].size
  {
    hide HeapOk, U64At;
    OwnedTile(m, head, ts, k);
    HeaderReads(m, ts[k]);
  }

  lemma HeaderReads(m: seq<byte>, t: Tile)
    requires t.Live? && HeaderOk(m, t)
    ensures LIVE_HEADER <= t.user <= |m| && U64At(m, t.user - 32) == MAGIC && U64At(m, t.user - 24) == t.start
    ensures U64At(m, t.user - 16) == t.size
  {
    hide U64At;
  }

  lemma HeaderCleared(m: seq<byte>, head: nat, ts: seq<Tile>, k: nat)
    requires HeapOk(m, head, ts) && k < |ts| && ts[k].Live?
    ensures LIVE_HEADER <= ts[k].user <= |m|
    ensures Cleared(m, PutHeader(m, ts[k].user - 32, 0, 0, 0, 0), head, ts, k)
  {
    hide HeaderOk, Seg, Tiling, Coalesced, PutHeader, SameBytes, OnlyTile;
    OwnedTile(m, head, ts, k);
    ClearTouches(m, ts[k]);
    LiveTileWrite(m, PutHeader(m, ts[k].user - 32, 0, 0, 0, 0), head, ts, k);
  }

  lemma ClearTouches(m: seq<byte>, t: Tile)
    requires t.Live? && GoodTile(t) && EndOf(t) <= |m| < END
    ensures OnlyTile(m, PutHeader(m, t.user - 32, 0, 0, 0, 0), t.start, EndOf(t), END)
  {
    hide LeU64;
  }

  lemma ClearedFacts(before: seq<byte>, m: seq<byte>, head: nat, ts: seq<Tile>, k: nat)
    requires Cleared(before, m, head, ts, k)
    ensures HeapOk(before, head, ts) && |before| == |m|
    ensures forall i :: 0 <= i < |ts| && i != k && ts[i].Live? ==> SameBytes(before, m, ts[i].start, ts[i].size)
    ensures |m| < END && Tiling(ts, 0, |m|) && Seg(m, head, ts, END) && k < |ts| && ts[k].Live?
    ensures GoodTile(ts[k]) && EndOf(ts[k]) <= |m| && ts[k].start + FREE_HEADER <= EndOf(ts[k])
  {
    hide HeaderOk, Seg, Tiling, Coalesced;
    TilesInside(ts, 0, |m|, k);
  }

  /** A cursor on a block in front of tile `k` can move on. */
  lemma CursorBefore(m: seq<byte>, head: nat, ts: seq<Tile>, previous: nat, current: nat, p: int, c: nat, k: nat)
    requires |m| < END && Tiling(ts, 0, |m|) && k < |ts| && Cursor(m, head, ts, previous, current, p, c)
    requires current != END && current < ts[k].start
    ensures c < |ts| && c < k && current + FREE_HEADER <= |m|
  {
    hide Tiling, SizeField, NextField, Seg;
    TilesInside(ts, 0, |m|, c);
    if k < c {
      TilesApart(ts, 0, |m|, k, c);
    }
  }

  lemma CursorPast(m: seq<byte>, head: nat, ts: seq<Tile>, previous: nat, current: nat, p: int, c: nat, k: nat)
    requires |m| < END && Tiling(ts, 0, |m|) && k < |ts| && ts[k].Live? && Cursor(m, head, ts, previous, current, p, c)
    requires current == END || current >= ts[k].start
    ensures k < c && current < U64_LIMIT
  {
    hide Tiling, SizeField, NextField, Seg;
    if c < |ts| {
      TilesInside(ts, 0, |m|, c);
      if c < k {
        TilesApart(ts, 0, |m|, c, k);
      }
    }
  }

  /** A list with its tiling, and the live tiles as they were at the start. */
  ghost predicate Midway(before: seq<byte>, m: seq<byte>, head: nat, ts: seq<Tile>)
  {
    |m| < END && Tiling(ts, 0, |m|) && Seg(m, head, ts, END) && LiveKept(before, m, ts)
  }

  lemma Inserted(before: seq<byte>, m0: seq<byte>, m2: seq<byte>, ts: seq<Tile>, k: nat, previous: nat, p: int)
    requires |m0| < END && Tiling(ts, 0, |m0|) && k < |ts| && |before| == |m0|
    requires OnlyTile(m0, m2, ts[k].start, EndOf(ts[k]), previous)
    requires -1 <= p < k && (p < 0 ==> previous == END) && (p >= 0 ==> ts[p].Free? && previous == ts[p].start)
    requires forall i :: 0 <= i < |ts| && i != k && ts[i].Live? ==> SameBytes(before, m0, ts[i].start, ts[i].size)
    ensures Tiling(Freed(ts, k), 0, |m2|) && |m2| == |m0| && LiveKept(before, m2, Freed(ts, k))
  {
    hide Tiling, OnlyTile;
    FreedTiling(ts, |m0|, k);
    var ts1 := Freed(ts, k);
    SameLength(m0, m2, ts[k].start, EndOf(ts[k]), previous);
    hide SameBytes;
    FreeTileWrite(m0, m2, ts1, k, previous, p);
    forall i | 0 <= i < |ts1| && ts1[i].Live?
      ensures SameBytes(before, m0, ts1[i].start, ts1[i].size)
    {
      assert ts1[i] == ts[i];
    }
    LiveKeptFurther(before, m0, m2, ts1);
  }

  lemma MergeOk(before: seq<byte>, m: seq<byte>, head: nat, ts: seq<Tile>, k: nat)
    requires Midway(before, m, head, ts) && k + 1 < |ts| && ts[k].Free? && ts[k + 1].Free?
    ensures ts[k + 1].start + FREE_HEADER <= |m| && ts[k].start + FREE_HEADER <= |m|
    ensures ts[k].size + ts[k + 1].size <= |m|
    ensures SizeField(m, ts[k + 1].start) == ts[k + 1].size && SizeField(m, ts[k].start) == ts[k].size
    ensures NextField(m, ts[k].start) == ts[k + 1].start
    ensures Midway(before, PutBlock(m, ts[k].start, ts[k].size + ts[k + 1].size, NextField(m, ts[k + 1].start)), head,
                   Merge(ts, k))
    ensures SameLive(ts, Merge(ts, k))
  {
    hide Seg, Tiling, SizeField, NextField, PutBlock, LiveKept, Merge, OnlyTile, SameLive;
    MergeList(m, head, ts, k);
    MergeTiling(ts, |m|, k);
    MergeSameLive(ts, k);
    var m' := PutBlock(m, ts[k].start, ts[k].size + ts[k + 1].size, NextField(m, ts[k + 1].start));
    FreeTileWrite(m, m', ts, k, END, -1);
    LiveKeptFurther(before, m, m', ts);
    LiveKeptSame(before, m', ts, Merge(ts, k));
  }

  lemma FreedFacts(ts: seq<Tile>, k: nat)
    requires k < |ts|
    ensures |Freed(ts, k)| == |ts| && Freed(ts, k)[k] == Free(ts[k].start, ts[k].size)
    ensures forall i :: 0 <= i < |ts| && i != k ==> Freed(ts, k)[i] == ts[i]
  {
  }

  lemma JoinedFacts(ts: seq<Tile>, k: nat)
    requires k < |ts|
    ensures var ts2 := JoinNext(Freed(ts, k), k); k < |ts2| && ts2[k].Free? && ts2[k].start == ts[k].start
    ensures forall i :: 0 <= i < k ==> JoinNext(Freed(ts, k), k)[i] == ts[i]
  {
    hide Merge;
  }

  lemma ReleaseIs(ts: seq<Tile>, k: nat)
    requires k < |ts|
    ensures Release(ts, k) == (var ts2 := JoinNext(Freed(ts, k), k);
                               if k > 0 && ts2[k - 1].Free? then Merge(ts2, k - 1) else ts2)
  {
    hide Merge, Freed;
  }

  lemma SameLiveItself(ts: seq<Tile>)
    ensures SameLive(ts, ts)
  {
  }

  /** Every free tile of a listed tiling carries its size. */
  lemma FreeSize(before: seq<byte>, m: seq<byte>, head: nat, ts: seq<Tile>, p: nat)
    requires Midway(before, m, head, ts) && p < |ts| && ts[p].Free?
    ensures ts[p].start + FREE_HEADER <= |m| && SizeField(m, ts[p].start) == ts[p].size
  {
    hide SizeField, NextField, Tiling, LiveKept;
    SegSplitAt(m, head, ts, p, END);
    assert ts[p..][0] == ts[p];
  }

  lemma ReleasedOk(before: seq<byte>, m: seq<byte>, head: nat, head0: nat, ts: seq<Tile>, k: nat)
    requires HeapOk(before, head0, ts) && k < |ts| && ts[k].Live?
    requires Midway(before, m, head, Release(ts, k)) && SameLive(Freed(ts, k), Release(ts, k))
    ensures HeapOk(m, head, Release(ts, k))
  {
    hide SizeField, NextField, Tiling, Seg, Coalesced, HeaderOk, Release, SameBytes;
    ReleaseCoalesced(ts, k);
    var ts3 := Release(ts, k);
    forall i | 0 <= i < |ts3| && ts3[i].Live?
      ensures HeaderOk(m, ts3[i])
    {
      var j :| 0 <= j < |ts| && Freed(ts, k)[j] == ts3[i];
      assert j != k && ts[j] == ts3[i];
      TilesInside(ts, 0, |before|, j);
      HeaderKept(before, m, ts[j]);
    }
  }

  lemma MidwayKept(before: seq<byte>, m: seq<byte>, head: nat, ts: seq<Tile>)
    requires Midway(before, m, head, ts)
    ensures LiveKept(before, m, ts)
  {
  }

  lemma {:induction false} FreeBytesAppend(a: seq<Tile>, b: seq<Tile>)
    ensures FreeBytes(a + b) == FreeBytes(a) + FreeBytes(b)
  {
    if a == [] {
      assert a + b == b;
    } else {
      assert (a + b)[1..] == a[1..] + b;
      FreeBytesAppend(a[1..], b);
    }
  }

  lemma {:induction false} FreeBytesOfLive(ts: seq<Tile>, lo: nat, hi: nat)
    requires lo <= hi <= |ts| && forall i :: lo <= i < hi ==> ts[i].Live?
    ensures FreeBytes(ts[lo..hi]) == 0 && ts[0..hi] == ts[..hi]
    decreases hi - lo
  {
    if lo < hi {
      FreeBytesOfLive(ts, lo + 1, hi);
      assert ts[lo..hi][1..] == ts[lo + 1..hi];
    }
  }

  lemma FreeBytesStep(ts: seq<Tile>, k: nat, k': nat)
    requires k < k' <= |ts| && ts[k].Free? && forall i :: k < i < k' ==> ts[i].Live?
    ensures FreeBytes(ts[..k']) == FreeBytes(ts[..k]) + ts[k].size
  {
    FreeBytesOfLive(ts, k + 1, k');
    assert ts[..k'] == ts[..k] + ([ts[k]] + ts[k + 1..k']);
    FreeBytesAppend(ts[..k], [ts[k]] + ts[k + 1..k']);
    assert ([ts[k]] + ts[k + 1..k'])[1..] == ts[k + 1..k'];
  }

  /** A program that writes only into its own allocation cannot harm the heap. */
  lemma UserWriteIsHarmless(m: seq<byte>, m': seq<byte>, head: nat, ts: seq<Tile>, k: nat)
    requires HeapOk(m, head, ts) && k < |ts| && ts[k].Live? && |m'| == |m|
    requires forall x :: 0 <= x < |m| && m'[x] != m[x] ==> ts[k].user <= x < ts[k].user + ts[k].requested
    ensures HeapOk(m', head, ts)
    ensures forall i :: 0 <= i < |ts| && i != k && ts[i].Live? ==> SameBytes(m, m', ts[i].start, ts[i].size)
  {
    OwnedTile(m, head, ts, k);
    hide Seg, Tiling, Coalesced, HeaderOk;
    LiveTileWrite(m, m', head, ts, k);
    forall i | 0 <= i < |ts| && ts[i].Live?
      ensures HeaderOk(m', ts[i])
    {
      TilesInside(ts, 0, |m|, i);
      if i == k {
        OwnHeaderKept(m, m', ts[k]);
      } else {
        HeaderKept(m, m', ts[i]);
      }
    }
  }

  lemma OwnHeaderKept(m: seq<byte>, m': seq<byte>, t: Tile)
    requires t.Live? && HeaderOk(m, t) && |m'| == |m|
    requires forall x :: 0 <= x < |m| && m'[x] != m[x] ==> t.user <= x < t.user + t.requested
    ensures HeaderOk(m', t)
  {
    hide U64At;
    SameU64(m, m', t.user - 32);
    SameU64(m, m', t.user - 24);
    SameU64(m, m', t.user - 16);
    SameU64(m, m', t.user - 8);
  }

  /** Offsets are aligned; the address is aligned exactly when the storage is. */
  lemma AddressAligned(base: nat, user: nat, align: nat)
    requires align > 0 && user % align == 0
    ensures (base + user) % align == 0 <==> base % align == 0
  {
    var q, s := user / align, base / align;
    var r := base % align;
    assert user == align * q && base == align * s + r;
    assert base + user == align * (s + q) + r;
    DivModUnique(base + user, align, s + q, r);
  }

  /** A heap whose storage is only aligned to eight hands out an address that is not aligned
      as asked. */
  method MisalignedAddress() returns (pointer: nat)
    ensures pointer % 64 != 0
  {
    hide HeapOk, Allocated, Release, UsedBytes, LiveCount;
    var heap := new ReclaimingHeap(8, 256);
    assert heap.tiles[0] == Free(0, 256);
    var r := heap.Allocate(16, 64);
    pointer := r.value;
  }

  // ----- A bootstrap heap that can be extended once

  datatype HeapInitError = AlreadyInitialized | InvalidAddress | InvalidCapacity | OverlapsBootstrap

  class ExpandableHeap {
    const bootstrap: ReclaimingHeap
    var external: ReclaimingHeap?

    ghost predicate Valid()
      reads this, bootstrap, bootstrap.storage, external, if external == null then {} else {external.storage}
    {
      && bootstrap.Valid()
      && (external != null ==>
            && external.Valid() && external != bootstrap && external.storage != bootstrap.storage
            && (external.base + external.storage.Length <= bootstrap.base
                || bootstrap.base + bootstrap.storage.Length <= external.base))
    }

    constructor (base: nat, capacity: nat)
      requires 0 < base && base + capacity < U64_LIMIT && capacity >= FREE_HEADER && capacity % 8 == 0
      ensures Valid() && external == null && fresh(bootstrap) && fresh(bootstrap.storage)
    {
      bootstrap := new ReclaimingHeap(base, capacity);
      external := null;
    }

    /** Adds the external region; refused exactly when it is malformed, overlaps the
        bootstrap storage or was added before. */
    method InitializeExternal(base: nat, capacity: nat) returns (r: Outcome<HeapInitError>)
      requires Valid()
      modifies this
      ensures Valid()
      ensures r.Pass? <==>
        && base > 0 && base % 8 == 0 && capacity >= FREE_HEADER && capacity % 8 == 0 && base + capacity < U64_LIMIT
        && old(external) == null
        && (base + capacity <= bootstrap.base || bootstrap.base + bootstrap.storage.Length <= base)
      ensures r.Fail? ==> external == old(external)
      ensures r.Pass? ==> external != null && external.base == base && external.tiles == [Free(0, capacity)]
    {
      if base == 0 || base % 8 != 0 {
        return Fail(InvalidAddress);
      }
      if capacity < FREE_HEADER || capacity % 8 != 0 || base + capacity >= U64_LIMIT {
        return Fail(InvalidCapacity);
      }
      if base < bootstrap.base + bootstrap.storage.Length && bootstrap.base < base + capacity {
        return Fail(OverlapsBootstrap);
      }
      if external != null {
        return Fail(AlreadyInitialized);
      }
      external := new ReclaimingHeap(base, capacity);
      r := Pass;
    }

    /** Addresses that belong to the external region. */
    predicate InExternal(pointer: nat)
      reads this
    {
      external != null && external.base <= pointer < external.base + external.storage.Length
    }

    /** Tries the external region first and the bootstrap storage after it; either
        way the other region keeps all its bytes. */
    method Allocate(size: nat, align: nat) returns (r: Option<nat>)
      requires Valid() && size < U64_LIMIT && Alignment(align) && align < U64_LIMIT
      modifies bootstrap, bootstrap.storage, external, if external == null then {} else {external.storage}
      ensures Valid() && external == old(external)
      ensures r.Some? && InExternal(r.value) ==>
        && Allocated(old(external.storage[..]), external.storage[..], old(external.tiles), external.tiles,
                     r.value - external.base, Max(size, 1), Max(align, 8))
        && bootstrap.storage[..] == old(bootstrap.storage[..]) && bootstrap.tiles == old(bootstrap.tiles)
      ensures r.Some? && !InExternal(r.value) ==>
        Allocated(old(bootstrap.storage[..]), bootstrap.storage[..], old(bootstrap.tiles), bootstrap.tiles,
                  r.value - bootstrap.base, Max(size, 1), Max(align, 8))
      ensures external != null && (r.None? || !InExternal(r.value)) ==>
        external.storage[..] == old(external.storage[..]) && external.tiles == old(external.tiles)
    {
      hide HeapOk, UsedBytes, LiveCount, Allocated, Holds;
      if external != null {
        r := external.Allocate(size, align);
        if r.Some? {
          return;
        }
      }
      r := bootstrap.Allocate(size, align);
    }

    /** Sends a pointer to the region its address lies in and leaves the other region alone. */
    method Deallocate(pointer: nat, ghost k: nat)
      requires Valid()
      requires InExternal(pointer) ==> external.Ignored(pointer) || external.Owns(pointer, k)
      requires !InExternal(pointer) ==> bootstrap.Ignored(pointer) || bootstrap.Owns(pointer, k)
      modifies bootstrap, bootstrap.storage, external, if external == null then {} else {external.storage}
      ensures Valid() && external == old(external)
      ensures InExternal(pointer) ==>
        && bootstrap.tiles == old(bootstrap.tiles) && bootstrap.storage[..] == old(bootstrap.storage[..])
        && external.tiles ==
           (if old(external.Owns(pointer, k)) then Release(old(external.tiles), k) else old(external.tiles))
      ensures !InExternal(pointer) && external != null ==>
        external.tiles == old(external.tiles) && external.storage[..] == old(external.storage[..])
      ensures !InExternal(pointer) ==>
        bootstrap.tiles ==
        if old(bootstrap.Owns(pointer, k)) then Release(old(bootstrap.tiles), k) else old(bootstrap.tiles)
    {
      hide HeapOk, Release, UsedBytes, LiveCount, LiveKept, SameLive, U64At;
      if pointer == 0 {
        return;
      }
      if external != null && external.base <= pointer < external.base + external.storage.Length {
        external.Deallocate(pointer, k);
      } else {
        bootstrap.Deallocate(pointer, k);
      }
    }
  }
}
