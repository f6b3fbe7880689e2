/** Allocation and release as changes of the tiling and of the heap's bytes. */
module HeapSteps {
  import opened Bytes
  import opened HeapTiles

  // ----- The header in front of an allocation

  function PutHeader(m: seq<byte>, at: nat, magic: u64, start: u64, size: u64, requested: u64): (r: seq<byte>)
    requires at + LIVE_HEADER <= |m|
    ensures |r| == |m|
  {
    Put(m, at, LeU64(magic) + LeU64(start) + LeU64(size) + LeU64(requested))
  }

  ghost predicate HeaderOk(m: seq<byte>, t: Tile)
    requires t.Live?
  {
    && LIVE_HEADER <= t.user <= |m|
    && U64At(m, t.user - 32) == MAGIC
    && U64At(m, t.user - 24) == t.start
    && U64At(m, t.user - 16) == t.size
    && U64At(m, t.user - 8) == t.requested
  }

  lemma PutHeaderReads(m: seq<byte>, t: Tile)
    requires t.Live? && LIVE_HEADER <= t.user <= |m| && t.start < U64_LIMIT && t.size < U64_LIMIT
    requires t.requested < U64_LIMIT
    ensures HeaderOk(PutHeader(m, t.user - 32, MAGIC, t.start, t.size, t.requested), t)
  {
    hide LeU64, U64At;
    var at := t.user - 32;
    var a, b, c, d := LeU64(MAGIC), LeU64(t.start), LeU64(t.size), LeU64(t.requested);
    var r := PutHeader(m, at, MAGIC, t.start, t.size, t.requested);
    Fields5(a, b, c, d, [], 8, 16, 24, 32, 32);
    assert a + b + c + d + [] == a + b + c + d;
    assert r[at..at + 32] == a + b + c + d;
    Slice(r, at, 32, 0, 8);
    Slice(r, at, 32, 8, 8);
    Slice(r, at, 32, 16, 8);
    Slice(r, at, 32, 24, 8);
    U64RoundTrip(r, at, MAGIC);
    U64RoundTrip(r, at + 8, t.start);
    U64RoundTrip(r, at + 16, t.size);
    U64RoundTrip(r, at + 24, t.requested);
  }

  lemma HeaderKept(m: seq<byte>, m': seq<byte>, t: Tile)
    requires t.Live? && GoodTile(t) && HeaderOk(m, t) && SameBytes(m, m', t.start, t.size) && EndOf(t) <= |m|
    ensures HeaderOk(m', t)
  {
    hide U64At;
    SameU64(m, m', t.user - 32);
    SameU64(m, m', t.user - 24);
    SameU64(m, m', t.user - 16);
    SameU64(m, m', t.user - 8);
  }

  // ----- The invariant of the heap

  /** The tiles cover the storage, the links in it visit the free tiles in order,
      no two free tiles touch, and every live tile has its header. */
  ghost predicate HeapOk(m: seq<byte>, head: nat, ts: seq<Tile>)
  {
    && |m| < END
    && Tiling(ts, 0, |m|) && Coalesced(ts)
    && Seg(m, head, ts, END)
    && forall i :: 0 <= i < |ts| && ts[i].Live? ==> HeaderOk(m, ts[i])
  }

  /** Every live tile of `ts` other than number `k` is in `ts'` with the same bytes. */
  ghost predicate OthersKept(m: seq<byte>, m': seq<byte>, ts: seq<Tile>, ts': seq<Tile>, k: nat)
  {
    && |m| == |m'|
    && forall i :: 0 <= i < |ts| && i != k && ts[i].Live? ==> ts[i] in ts' && SameBytes(m, m', ts[i].start, ts[i].size)
  }

  // ----- Allocation

  /** The part of tile `k` behind the allocation, if it is worth keeping. */
  function Suffix(t: Tile, allocEnd: nat): (s: seq<Tile>)
    requires allocEnd <= EndOf(t)
  {
    if allocEnd < EndOf(t) then [Free(allocEnd, EndOf(t) - allocEnd)] else []
  }

  function Carve(ts: seq<Tile>, k: nat, user: nat, requested: nat, allocEnd: nat): (r: seq<Tile>)
    requires k < |ts| && ts[k].start <= allocEnd <= EndOf(ts[k])
  {
    ts[..k] + ([Live(ts[k].start, allocEnd - ts[k].start, user, requested)] + Suffix(ts[k], allocEnd)) + ts[k + 1..]
  }

  /** Where an allocation in tile `k` may be placed. */
  ghost predicate Placement(t: Tile, user: nat, requested: nat, allocEnd: nat)
  {
    && t.Free? && t.start + LIVE_HEADER <= user && requested > 0 && user + requested <= allocEnd <= EndOf(t)
    && allocEnd % 8 == 0 && (allocEnd == EndOf(t) || allocEnd + FREE_HEADER <= EndOf(t))
  }

  lemma Multiples(a: nat, b: nat)
    requires a % 8 == 0 && b % 8 == 0
    ensures (a + b) % 8 == 0
  {
  }

  lemma DifferenceMultiple(a: nat, b: nat)
    requires a % 8 == 0 && b % 8 == 0 && b <= a
    ensures (a - b) % 8 == 0
  {
  }

  lemma CarveTiling(ts: seq<Tile>, cap: nat, k: nat, user: nat, requested: nat, allocEnd: nat)
    requires Tiling(ts, 0, cap) && k < |ts| && Placement(ts[k], user, requested, allocEnd)
    ensures Tiling(Carve(ts, k, user, requested, allocEnd), 0, cap)
  {
    var t := ts[k];
    TilingSplit(ts, 0, cap, k);
    var mid := [Live(t.start, allocEnd - t.start, user, requested)] + Suffix(t, allocEnd);
    Multiples(t.start, t.size);
    DifferenceMultiple(allocEnd, t.start);
    DifferenceMultiple(EndOf(t), allocEnd);
    assert mid[1..] == Suffix(t, allocEnd);
    if allocEnd < EndOf(t) {
      assert Suffix(t, allocEnd)[1..] == [];
      assert Tiling([], EndOf(t), EndOf(t));
    }
    assert Tiling(Suffix(t, allocEnd), allocEnd, EndOf(t));
    assert Tiling(mid, t.start, EndOf(t));
    hide Tiling;
    TilingJoin(ts[..k], mid, 0, t.start, EndOf(t));
    TilingJoin(ts[..k] + mid, ts[k + 1..], 0, EndOf(t), cap);
  }

  lemma CarveCoalesced(ts: seq<Tile>, k: nat, user: nat, requested: nat, allocEnd: nat)
    requires Coalesced(ts) && k < |ts| && ts[k].Free? && ts[k].start <= allocEnd <= EndOf(ts[k])
    ensures Coalesced(Carve(ts, k, user, requested, allocEnd))
  {
    var r := Carve(ts, k, user, requested, allocEnd);
    var n := if allocEnd < EndOf(ts[k]) then 2 else 1;
    assert |r| == |ts| + n - 1;
    assert forall i :: 0 <= i < k ==> r[i] == ts[i];
    assert r[k].Live? && (n == 2 ==> r[k + 1].Free?);
    assert forall i :: k + n <= i < |r| ==> r[i] == ts[i - n + 1];
    forall i | 0 <= i < |r| - 1
      ensures !(r[i].Free? && r[i + 1].Free?)
    {
      if i + 1 < k {
        assert !(ts[i].Free? && ts[i + 1].Free?);
      } else if i == k + 1 && n == 2 {
        assert !(ts[k].Free? && ts[k + 1].Free?);
      } else if i >= k + n {
        var j := i - n + 1;
        assert !(ts[j].Free? && ts[j + 1].Free?);
      }
    }
  }

  /** The bytes after carving: a suffix block, the changed link, the header. */
  function CarveBytes(m: seq<byte>, t: Tile, next: u64, previous: nat, user: nat, requested: nat,
                      allocEnd: nat): (r: seq<byte>)
    requires t.start <= allocEnd <= EndOf(t) <= |m| < END && LIVE_HEADER <= user <= |m| && requested <= |m|
    requires allocEnd < EndOf(t) ==> allocEnd + FREE_HEADER <= EndOf(t)
    requires previous == END || previous + FREE_HEADER <= |m|
    ensures |r| == |m|
  {
    var m1 := if allocEnd < EndOf(t) then PutBlock(m, allocEnd, EndOf(t) - allocEnd, next) else m;
    var m2 := Relink(m1, previous, if allocEnd < EndOf(t) then allocEnd else next);
    PutHeader(m2, user - 32, MAGIC, t.start, allocEnd - t.start, requested)
  }

  lemma CarveTouches(m: seq<byte>, t: Tile, next: u64, previous: nat, user: nat, requested: nat, allocEnd: nat)
    requires EndOf(t) <= |m| < END && Placement(t, user, requested, allocEnd)
    requires previous == END || previous + FREE_HEADER <= |m|
    ensures OnlyTile(m, CarveBytes(m, t, next, previous, user, requested, allocEnd), t.start, EndOf(t), previous)
  {
    hide LeU64;
  }

  /** What comes before tile `k` is still behind the cursor after a write into tile `k`. */
  lemma BehindKept(m: seq<byte>, m': seq<byte>, head: nat, ts: seq<Tile>, previous: nat, current: nat, p: int, k: nat)
    requires Behind(m, head, ts, previous, current, p, k) && Tiling(ts, 0, |m|) && k < |ts| && |m| < END
    requires OnlyTile(m, m', ts[k].start, EndOf(ts[k]), END)
    ensures Behind(m', head, ts, previous, current, p, k)
  {
    hide Tiling, SizeField, NextField, Seg;
    if p >= 0 {
      forall i | 0 <= i <= p
        ensures SameBytes(m, m', ts[i].start, FREE_HEADER)
      {
        TilesInside(ts, 0, |m|, i);
        TilesApart(ts, 0, |m|, i, k);
      }
      SameFields(m, m', previous);
      SegFrame(m, m', head, ts[..p], previous);
    }
  }

  /** Carving an allocation out of the free tile at the cursor keeps the heap sound
      and every other live allocation byte for byte. */
  lemma CarveOk(m: seq<byte>, head: nat, ts: seq<Tile>, previous: nat, p: int, k: nat,
                user: nat, requested: nat, allocEnd: nat)
    requires HeapOk(m, head, ts) && k < |ts| && Cursor(m, head, ts, previous, ts[k].start, p, k)
    requires Placement(ts[k], user, requested, allocEnd)
    ensures ts[k].start + FREE_HEADER <= |m| && EndOf(ts[k]) <= |m|
    ensures previous == END || previous + FREE_HEADER <= |m|
    ensures var next := NextField(m, ts[k].start);
      var m' := CarveBytes(m, ts[k], next, previous, user, requested, allocEnd);
      var target := if allocEnd < EndOf(ts[k]) then allocEnd else next;
      var ts' := Carve(ts, k, user, requested, allocEnd);
      && HeapOk(m', RelinkHead(head, previous, target), ts')
      && OthersKept(m, m', ts, ts', k)
  {
    hide Seg, Tiling, SizeField, NextField, PutBlock, PutNext, PutHeader, Coalesced, HeaderOk, SameBytes, Behind,
      OnlyTile, Carve;
    var t := ts[k];
    TilesInside(ts, 0, |m|, k);
    var k' := CursorNext(m, head, ts, previous, t.start, p, k);
    var next := NextField(m, t.start);
    SegAfter(m, head, ts, t.start, next, k, k');
    CursorPrevious(m, head, ts, previous, t.start, p, k);
    var m' := CarveBytes(m, t, next, previous, user, requested, allocEnd);
    var ts' := Carve(ts, k, user, requested, allocEnd);
    var target := if allocEnd < EndOf(t) then allocEnd else next;
    CarveTouches(m, t, next, previous, user, requested, allocEnd);
    CarveTiling(ts, |m|, k, user, requested, allocEnd);
    CarveCoalesced(ts, k, user, requested, allocEnd);
    CarveList(m, head, ts, previous, p, k, user, requested, allocEnd, next);
    CarveKeeps(m, m', ts, previous, p, k, user, requested, allocEnd);
    CarveHeaders(m, m', ts, previous, p, k, user, requested, allocEnd, next);
  }

  lemma SegAfter(m: seq<byte>, head: nat, ts: seq<Tile>, current: nat, next: nat, k: nat, k': nat)
    requires k < |ts| && Cursor(m, head, ts, current, next, k, k')
    ensures Seg(m, next, ts[k + 1..], END)
  {
    hide Seg, SizeField, NextField;
    assert ts[k + 1..] == ts[k + 1..k'] + ts[k'..];
    SegLive(m, next, ts[k + 1..k']);
    SegJoin(m, next, ts[k + 1..k'], next, ts[k'..], END);
  }

  lemma CursorPrevious(m: seq<byte>, head: nat, ts: seq<Tile>, previous: nat, current: nat, p: int, k: nat)
    requires Behind(m, head, ts, previous, current, p, k)
    ensures -1 <= p < k && (p < 0 ==> previous == END) && (p >= 0 ==> ts[p].Free? && previous == ts[p].start)
    ensures previous == END || previous + FREE_HEADER <= |m|
  {
    hide Seg, SizeField, NextField;
  }

  /** The list after carving. */
  lemma CarveList(m: seq<byte>, head: nat, ts: seq<Tile>, previous: nat, p: int, k: nat,
                  user: nat, requested: nat, allocEnd: nat, next: u64)
    requires |m| < END && Tiling(ts, 0, |m|) && k < |ts| && EndOf(ts[k]) <= |m|
    requires Behind(m, head, ts, previous, ts[k].start, p, k) && (previous == END || previous + FREE_HEADER <= |m|)
    requires Placement(ts[k], user, requested, allocEnd) && Seg(m, next, ts[k + 1..], END)
    ensures Seg(CarveBytes(m, ts[k], next, previous, user, requested, allocEnd),
                RelinkHead(head, previous, if allocEnd < EndOf(ts[k]) then allocEnd else next),
                Carve(ts, k, user, requested, allocEnd), END)
  {
    hide Seg, Tiling, SizeField, NextField, PutBlock, PutNext, PutHeader, SameBytes, Behind, OnlyTile;
    var t := ts[k];
    var m1 := if allocEnd < EndOf(t) then PutBlock(m, allocEnd, EndOf(t) - allocEnd, next) else m;
    var target := if allocEnd < EndOf(t) then allocEnd else next;
    var m2 := Relink(m1, previous, target);
    var m3 := PutHeader(m2, user - 32, MAGIC, t.start, allocEnd - t.start, requested);
    var head' := RelinkHead(head, previous, target);
    CursorPrevious(m, head, ts, previous, t.start, p, k);
    SuffixWrite(m, t, allocEnd, next);
    BehindKept(m, m1, head, ts, previous, t.start, p, k);
    RelinkLeads(m1, head, ts, previous, t.start, p, k, target);
    HeaderWrite(m2, t, user, requested, allocEnd);
    FrontKept(m2, m3, ts, k, head', target);
    var mid := [Live(t.start, allocEnd - t.start, user, requested)] + Suffix(t, allocEnd);
    MiddleList(m, m1, m2, m3, ts, k, previous, p, user, requested, allocEnd, next, target);
    CarveTouches(m, t, next, previous, user, requested, allocEnd);
    AheadKept(m, m3, ts, k, previous, p, next);
    SegJoin(m3, head', ts[..k], target, mid, next);
    SegJoin(m3, head', ts[..k] + mid, next, ts[k + 1..], END);
  }

  lemma SuffixWrite(m: seq<byte>, t: Tile, allocEnd: nat, next: u64)
    requires t.start <= allocEnd <= EndOf(t) <= |m| < END
    requires allocEnd == EndOf(t) || allocEnd + FREE_HEADER <= EndOf(t)
    ensures OnlyTile(m, if allocEnd < EndOf(t) then PutBlock(m, allocEnd, EndOf(t) - allocEnd, next) else m,
                     t.start, EndOf(t), END)
  {
    hide LeU64;
  }

  lemma HeaderWrite(m: seq<byte>, t: Tile, user: nat, requested: nat, allocEnd: nat)
    requires Placement(t, user, requested, allocEnd) && EndOf(t) <= |m| < END
    ensures var m' := PutHeader(m, user - 32, MAGIC, t.start, allocEnd - t.start, requested);
      OnlyTile(m, m', t.start, EndOf(t), END) && OnlyTile(m, m', t.start, allocEnd, END)
  {
    hide LeU64;
  }

  /** A write into tile `k` does not disturb the list before it. */
  lemma FrontKept(m: seq<byte>, m': seq<byte>, ts: seq<Tile>, k: nat, head: nat, target: nat)
    requires Tiling(ts, 0, |m|) && k < |ts| && |m| < END && Seg(m, head, ts[..k], target)
    requires OnlyTile(m, m', ts[k].start, EndOf(ts[k]), END)
    ensures Seg(m', head, ts[..k], target)
  {
    hide Tiling, Seg;
    var front := ts[..k];
    forall i | 0 <= i < |front| && front[i].Free?
      ensures SameBytes(m, m', front[i].start, FREE_HEADER)
    {
      TilesInside(ts, 0, |m|, i);
      TilesApart(ts, 0, |m|, i, k);
    }
    SegFrame(m, m', head, front, target);
  }

  lemma MiddleList(m: seq<byte>, m1: seq<byte>, m2: seq<byte>, m3: seq<byte>, ts: seq<Tile>, k: nat, previous: nat,
                   p: int, user: nat, requested: nat, allocEnd: nat, next: u64, target: nat)
    requires |m| < END && Tiling(ts, 0, |m|) && k < |ts| && EndOf(ts[k]) <= |m|
    requires Placement(ts[k], user, requested, allocEnd)
    requires -1 <= p < k && (p < 0 ==> previous == END) && (p >= 0 ==> ts[p].Free? && previous == ts[p].start)
    requires previous == END || previous + FREE_HEADER <= |m|
    requires m1 == if allocEnd < EndOf(ts[k]) then PutBlock(m, allocEnd, EndOf(ts[k]) - allocEnd, next) else m
    requires target == if allocEnd < EndOf(ts[k]) then allocEnd else next
    requires target < U64_LIMIT && m2 == Relink(m1, previous, target)
    requires m3 == PutHeader(m2, user - 32, MAGIC, ts[k].start, allocEnd - ts[k].start, requested)
    ensures Seg(m3, target, [Live(ts[k].start, allocEnd - ts[k].start, user, requested)] + Suffix(ts[k], allocEnd),
                next)
  {
    hide Tiling, SizeField, NextField, PutBlock, PutNext, PutHeader;
    var t := ts[k];
    var mid := [Live(t.start, allocEnd - t.start, user, requested)] + Suffix(t, allocEnd);
    assert mid[1..] == Suffix(t, allocEnd);
    if allocEnd < EndOf(t) {
      PutBlockReads(m, allocEnd, EndOf(t) - allocEnd, next);
      if p >= 0 {
        TilesInside(ts, 0, |m|, p);
        TilesApart(ts, 0, |m|, p, k);
        PutNextOff(m1, previous, target, allocEnd, FREE_HEADER);
      }
      assert SameBytes(m1, m2, allocEnd, FREE_HEADER);
      HeaderWrite(m2, t, user, requested, allocEnd);
      assert SameBytes(m2, m3, allocEnd, FREE_HEADER);
      SameFields(m1, m2, allocEnd);
      SameFields(m2, m3, allocEnd);
      assert Suffix(t, allocEnd)[1..] == [];
      assert Seg(m3, next, [], next);
    }
    assert Seg(m3, target, Suffix(t, allocEnd), next);
  }

  lemma CarveIndex(ts: seq<Tile>, k: nat, user: nat, requested: nat, allocEnd: nat, i: nat)
    requires k < |ts| && ts[k].start <= allocEnd <= EndOf(ts[k]) && i < |Carve(ts, k, user, requested, allocEnd)|
    ensures var ts' := Carve(ts, k, user, requested, allocEnd);
      if i < k then ts'[i] == ts[i]
      else if i == k then ts'[i] == Live(ts[k].start, allocEnd - ts[k].start, user, requested)
      else if allocEnd == EndOf(ts[k]) then i < |ts| && ts'[i] == ts[i]
      else i - 1 < |ts| && (if i == k + 1 then ts'[i].Free? else ts'[i] == ts[i - 1])
  {
  }

  lemma CarveMembers(ts: seq<Tile>, k: nat, user: nat, requested: nat, allocEnd: nat, i: nat)
    requires k < |ts| && ts[k].start <= allocEnd <= EndOf(ts[k]) && i < |ts| && i != k
    ensures ts[i] in Carve(ts, k, user, requested, allocEnd)
  {
    if i < k {
      assert ts[..k][i] == ts[i];
    } else {
      assert ts[k + 1..][i - k - 1] == ts[i];
    }
  }

  lemma CarveKeeps(m: seq<byte>, m': seq<byte>, ts: seq<Tile>, previous: nat, p: int, k: nat,
                   user: nat, requested: nat, allocEnd: nat)
    requires |m| < END && Tiling(ts, 0, |m|) && k < |ts| && ts[k].start <= allocEnd <= EndOf(ts[k])
    requires -1 <= p < k && (p < 0 ==> previous == END) && (p >= 0 ==> ts[p].Free? && previous == ts[p].start)
    requires OnlyTile(m, m', ts[k].start, EndOf(ts[k]), previous)
    ensures OthersKept(m, m', ts, Carve(ts, k, user, requested, allocEnd), k)
  {
    hide Tiling, Carve, SameBytes, OnlyTile;
    SameLength(m, m', ts[k].start, EndOf(ts[k]), previous);
    forall i | 0 <= i < |ts| && i != k && ts[i].Live?
      ensures ts[i] in Carve(ts, k, user, requested, allocEnd) && SameBytes(m, m', ts[i].start, ts[i].size)
    {
      CarveMembers(ts, k, user, requested, allocEnd, i);
      OtherTilesKept(m, m', ts, k, previous, p, i);
    }
  }

  lemma CarveHeaders(m: seq<byte>, m': seq<byte>, ts: seq<Tile>, previous: nat, p: int, k: nat,
                     user: nat, requested: nat, allocEnd: nat, next: u64)
    requires |m| < END && Tiling(ts, 0, |m|) && k < |ts| && EndOf(ts[k]) <= |m|
    requires Placement(ts[k], user, requested, allocEnd)
    requires previous == END || previous + FREE_HEADER <= |m|
    requires m' == CarveBytes(m, ts[k], next, previous, user, requested, allocEnd)
    requires OthersKept(m, m', ts, Carve(ts, k, user, requested, allocEnd), k)
    requires forall i :: 0 <= i < |ts| && ts[i].Live? ==> HeaderOk(m, ts[i])
    ensures var ts' := Carve(ts, k, user, requested, allocEnd);
      forall i :: 0 <= i < |ts'| && ts'[i].Live? ==> HeaderOk(m', ts'[i])
  {
    hide Tiling, HeaderOk, SameBytes, CarveBytes, Carve, GoodTile, Placement, OthersKept;
    PlacementInside(ts[k], user, requested, allocEnd);
    var ts' := Carve(ts, k, user, requested, allocEnd);
    MadeHeader(m, ts[k], next, previous, user, requested, allocEnd);
    forall i | 0 <= i < |ts'| && ts'[i].Live?
      ensures HeaderOk(m', ts'[i])
    {
      CarveIndex(ts, k, user, requested, allocEnd, i);
      if i != k {
        var j := if i < k then i else if allocEnd < EndOf(ts[k]) then i - 1 else i;
        OtherHeader(m, m', ts, ts', k, j);
      }
    }
  }

  lemma PlacementInside(t: Tile, user: nat, requested: nat, allocEnd: nat)
    requires Placement(t, user, requested, allocEnd)
    ensures t.start <= allocEnd <= EndOf(t)
  {
  }

  lemma OtherHeader(m: seq<byte>, m': seq<byte>, ts: seq<Tile>, ts': seq<Tile>, k: nat, j: nat)
    requires Tiling(ts, 0, |m|) && j < |ts| && j != k && ts[j].Live?
    requires OthersKept(m, m', ts, ts', k) && HeaderOk(m, ts[j])
    ensures HeaderOk(m', ts[j])
  {
    hide Tiling, HeaderOk, SameBytes, GoodTile;
    TilesInside(ts, 0, |m|, j);
    HeaderKept(m, m', ts[j]);
  }

  lemma MadeHeader(m: seq<byte>, t: Tile, next: u64, previous: nat, user: nat, requested: nat, allocEnd: nat)
    requires EndOf(t) <= |m| < END && Placement(t, user, requested, allocEnd)
    requires previous == END || previous + FREE_HEADER <= |m|
    ensures HeaderOk(CarveBytes(m, t, next, previous, user, requested, allocEnd),
                     Live(t.start, allocEnd - t.start, user, requested))
  {
    hide HeaderOk, PutBlock, PutNext, PutHeader, Relink;
    var m1 := if allocEnd < EndOf(t) then PutBlock(m, allocEnd, EndOf(t) - allocEnd, next) else m;
    PutHeaderReads(Relink(m1, previous, if allocEnd < EndOf(t) then allocEnd else next),
                   Live(t.start, allocEnd - t.start, user, requested));
  }

  // ----- Release

  /** Joins the free tiles `k` and `k + 1`. */
  function Merge(ts: seq<Tile>, k: nat): (r: seq<Tile>)
    requires k + 1 < |ts|
    ensures |r| == |ts| - 1
    ensures forall i :: 0 <= i < k ==> r[i] == ts[i]
    ensures r[k] == Free(ts[k].start, ts[k].size + ts[k + 1].size)
    ensures forall i :: k < i < |r| ==> r[i] == ts[i + 1]
  {
    ts[..k] + [Free(ts[k].start, ts[k].size + ts[k + 1].size)] + ts[k + 2..]
  }

  function Freed(ts: seq<Tile>, k: nat): (r: seq<Tile>)
    requires k < |ts|
    ensures |r| == |ts|
  {
    ts[k := Free(ts[k].start, ts[k].size)]
  }

  function JoinNext(ts: seq<Tile>, k: nat): (r: seq<Tile>)
    requires k < |ts|
    ensures k < |r|
  {
    if k + 1 < |ts| && ts[k + 1].Free? then Merge(ts, k) else ts
  }

  function JoinPrevious(ts: seq<Tile>, k: nat): (r: seq<Tile>)
    requires k < |ts|
  {
    if k > 0 && ts[k - 1].Free? then Merge(ts, k - 1) else ts
  }

  /** The tiling after releasing tile `k`. */
  function Release(ts: seq<Tile>, k: nat): (r: seq<Tile>)
    requires k < |ts|
  {
    JoinPrevious(JoinNext(Freed(ts, k), k), k)
  }

  lemma FreedTiling(ts: seq<Tile>, cap: nat, k: nat)
    requires Tiling(ts, 0, cap) && k < |ts|
    ensures Tiling(Freed(ts, k), 0, cap)
  {
    TilingSplit(ts, 0, cap, k);
    var f := [Free(ts[k].start, ts[k].size)];
    assert Tiling([], EndOf(ts[k]), EndOf(ts[k]));
    assert f[1..] == [];
    assert Tiling(f, ts[k].start, EndOf(ts[k]));
    hide Tiling;
    TilingJoin(ts[..k], f, 0, ts[k].start, EndOf(ts[k]));
    TilingJoin(ts[..k] + f, ts[k + 1..], 0, EndOf(ts[k]), cap);
    assert Freed(ts, k) == ts[..k] + f + ts[k + 1..];
  }

  lemma MergeTiling(ts: seq<Tile>, cap: nat, k: nat)
    requires Tiling(ts, 0, cap) && k + 1 < |ts|
    ensures Tiling(Merge(ts, k), 0, cap) && EndOf(ts[k]) == ts[k + 1].start
  {
    TilingSplit(ts, 0, cap, k);
    var rest := ts[k + 1..];
    assert rest[0] == ts[k + 1] && rest[1..] == ts[k + 2..];
    TilingSplit(rest, EndOf(ts[k]), cap, 0);
    var f := [Free(ts[k].start, ts[k].size + ts[k + 1].size)];
    assert Tiling([], EndOf(ts[k + 1]), EndOf(ts[k + 1]));
    assert f[1..] == [];
    Multiples(ts[k].size, ts[k + 1].size);
    assert Tiling(f, ts[k].start, EndOf(ts[k + 1]));
    hide Tiling;
    TilingJoin(ts[..k], f, 0, ts[k].start, EndOf(ts[k + 1]));
    TilingJoin(ts[..k] + f, ts[k + 2..], 0, EndOf(ts[k + 1]), cap);
  }

  lemma ReleaseCoalesced(ts: seq<Tile>, k: nat)
    requires Coalesced(ts) && k < |ts| && ts[k].Live?
    ensures Coalesced(Release(ts, k))
  {
    hide Merge;
    var ts1 := Freed(ts, k);
    var ts2 := JoinNext(ts1, k);
    assert forall i :: 0 <= i < k ==> ts2[i] == ts[i];
    assert ts2[k].Free?;
    var d := |ts| - |ts2|;
    assert forall i :: k < i < |ts2| ==> ts2[i] == ts[i + d];
    assert k + 1 < |ts2| ==> ts2[k + 1].Live? by {
      if d == 1 && k + 1 < |ts2| {
        assert !(ts[k + 1].Free? && ts[k + 2].Free?);
      }
    }
    forall i | 0 <= i < |ts2| - 1 && i != k - 1
      ensures !(ts2[i].Free? && ts2[i + 1].Free?)
    {
      if i + 1 < k {
        assert !(ts[i].Free? && ts[i + 1].Free?);
      } else if i > k {
        assert !(ts[i + d].Free? && ts[i + d + 1].Free?);
      }
    }
    if k > 0 && ts2[k - 1].Free? {
      var ts3 := Merge(ts2, k - 1);
      forall i | 0 <= i < |ts3| - 1
        ensures !(ts3[i].Free? && ts3[i + 1].Free?)
      {
        if i + 1 < k - 1 {
          assert !(ts2[i].Free? && ts2[i + 1].Free?);
        } else if i + 1 == k - 1 {
          assert !ts2[i].Free?;
        } else if i == k - 1 {
          assert ts3[i + 1] == ts2[k + 1];
        } else {
          assert !(ts2[i + 1].Free? && ts2[i + 2].Free?);
        }
      }
    }
  }

  // ----- The list while a block is put back

  lemma {:induction false} SegSplitAt(m: seq<byte>, head: nat, ts: seq<Tile>, k: nat, tail: nat)
    requires Seg(m, head, ts, tail) && k < |ts| && ts[k].Free?
    ensures Seg(m, head, ts[..k], ts[k].start) && Seg(m, ts[k].start, ts[k..], tail)
    decreases ts
  {
    hide SizeField, NextField;
    if k == 0 {
      assert ts[..0] == [] && ts[0..] == ts;
    } else {
      assert ts[..k][1..] == ts[1..][..k - 1] && ts[k..] == ts[1..][k - 1..];
      if ts[0].Live? {
        SegSplitAt(m, head, ts[1..], k - 1, tail);
      } else {
        SegSplitAt(m, NextField(m, head), ts[1..], k - 1, tail);
      }
    }
  }

  /** Putting the block of tile `k` into the list between its neighbours. */
  lemma InsertList(m: seq<byte>, head: nat, ts: seq<Tile>, previous: nat, current: u64, p: int, k: nat)
    requires |m| < END && Tiling(ts, 0, |m|) && k < |ts| && EndOf(ts[k]) <= |m|
    requires ts[k].start + FREE_HEADER <= EndOf(ts[k])
    requires Behind(m, head, ts, previous, current, p, k) && Seg(m, current, ts[k + 1..], END)
    requires previous == END || previous + FREE_HEADER <= |m|
    ensures var m1 := PutBlock(m, ts[k].start, ts[k].size, current);
      var m2 := Relink(m1, previous, ts[k].start);
      && Seg(m2, RelinkHead(head, previous, ts[k].start), Freed(ts, k), END)
      && OnlyTile(m, m2, ts[k].start, EndOf(ts[k]), previous)
  {
    hide Seg, Tiling, SizeField, NextField, PutBlock, PutNext, SameBytes, Behind, OnlyTile;
    var t := ts[k];
    var m1 := PutBlock(m, t.start, t.size, current);
    var m2 := Relink(m1, previous, t.start);
    var head' := RelinkHead(head, previous, t.start);
    CursorPrevious(m, head, ts, previous, current, p, k);
    BlockWrite(m, t, t.size, current);
    BehindKept(m, m1, head, ts, previous, current, p, k);
    RelinkLeads(m1, head, ts, previous, current, p, k, t.start);
    InsertTouches(m, t, current, previous);
    AheadKept(m, m2, ts, k, previous, p, current);
    PutBlockReads(m, t.start, t.size, current);
    if p >= 0 {
      TilesInside(ts, 0, |m|, p);
      TilesApart(ts, 0, |m|, p, k);
      PutNextOff(m1, previous, t.start, t.start, FREE_HEADER);
    } else {
      SameItself(m1, t.start, FREE_HEADER);
    }
    SameFields(m1, m2, t.start);
    OneBlock(m2, Free(t.start, t.size), current);
    SegJoin(m2, head', ts[..k], t.start, [Free(t.start, t.size)], current);
    SegJoin(m2, head', ts[..k] + [Free(t.start, t.size)], current, ts[k + 1..], END);
    assert Freed(ts, k) == ts[..k] + [Free(t.start, t.size)] + ts[k + 1..];
  }

  lemma SameItself(m: seq<byte>, at: nat, n: nat)
    ensures SameBytes(m, m, at, n)
  {
  }

  lemma OneBlock(m: seq<byte>, t: Tile, next: nat)
    requires t.Free? && t.start + FREE_HEADER <= |m| && SizeField(m, t.start) == t.size && NextField(m, t.start) == next
    ensures Seg(m, t.start, [t], next)
  {
    assert [t][1..] == [];
    assert Seg(m, next, [], next);
  }

  lemma BlockWrite(m: seq<byte>, t: Tile, size: u64, next: u64)
    requires t.start + FREE_HEADER <= EndOf(t) <= |m| < END
    ensures OnlyTile(m, PutBlock(m, t.start, size, next), t.start, EndOf(t), END)
  {
    hide LeU64;
  }

  lemma InsertTouches(m: seq<byte>, t: Tile, current: u64, previous: nat)
    requires t.start + FREE_HEADER <= EndOf(t) <= |m| < END && (previous == END || previous + FREE_HEADER <= |m|)
    ensures OnlyTile(m, Relink(PutBlock(m, t.start, t.size, current), previous, t.start), t.start, EndOf(t), previous)
  {
    hide LeU64;
  }

  /** Merging two touching free blocks in place. */
  lemma MergeList(m: seq<byte>, head: nat, ts: seq<Tile>, k: nat)
    requires |m| < END && Tiling(ts, 0, |m|) && k + 1 < |ts| && ts[k].Free? && ts[k + 1].Free? && Seg(m, head, ts, END)
    ensures ts[k + 1].start + FREE_HEADER <= |m| && ts[k].start + FREE_HEADER <= |m|
    ensures ts[k].size + ts[k + 1].size <= |m|
    ensures var m' := PutBlock(m, ts[k].start, ts[k].size + ts[k + 1].size, NextField(m, ts[k + 1].start));
      && Seg(m', head, Merge(ts, k), END)
      && OnlyTile(m, m', ts[k].start, EndOf(ts[k]), END)
    ensures SizeField(m, ts[k + 1].start) == ts[k + 1].size && SizeField(m, ts[k].start) == ts[k].size
    ensures NextField(m, ts[k].start) == ts[k + 1].start
  {
    hide Tiling, SizeField, NextField, PutBlock, SameBytes, OnlyTile;
    TilesInside(ts, 0, |m|, k);
    TilesInside(ts, 0, |m|, k + 1);
    TilesApart(ts, 0, |m|, k, k + 1);
    SegSplitAt(m, head, ts, k, END);
    assert ts[k..][0] == ts[k] && ts[k..][1..] == ts[k + 1..];
    assert ts[k + 1..][0] == ts[k + 1] && ts[k + 1..][1..] == ts[k + 2..];
    hide Seg;
    var next := NextField(m, ts[k + 1].start);
    var joined := Free(ts[k].start, ts[k].size + ts[k + 1].size);
    var m' := PutBlock(m, ts[k].start, joined.size, next);
    PutBlockReads(m, ts[k].start, joined.size, next);
    BlockWrite(m, ts[k], joined.size, next);
    FrontKept(m, m', ts, k, head, ts[k].start);
    TailKept(m, m', ts, k, next);
    OneBlock(m', joined, next);
    SegJoin(m', head, ts[..k], ts[k].start, [joined], next);
    SegJoin(m', head, ts[..k] + [joined], next, ts[k + 2..], END);
  }

  lemma TailKept(m: seq<byte>, m': seq<byte>, ts: seq<Tile>, k: nat, next: nat)
    requires |m| < END && Tiling(ts, 0, |m|) && k + 1 < |ts| && Seg(m, next, ts[k + 2..], END)
    requires OnlyTile(m, m', ts[k].start, EndOf(ts[k]), END)
    ensures Seg(m', next, ts[k + 2..], END)
  {
    hide Tiling, Seg;
    var tail := ts[k + 2..];
    forall i | 0 <= i < |tail| && tail[i].Free?
      ensures SameBytes(m, m', tail[i].start, FREE_HEADER)
    {
      TilesApart(ts, 0, |m|, k, k + 2 + i);
    }
    SegFrame(m, m', next, tail, END);
  }

  // ----- Release as a whole

  /** Every live tile keeps its bytes. */
  ghost predicate LiveKept(m: seq<byte>, m': seq<byte>, ts: seq<Tile>)
  {
    |m| == |m'| && forall i :: 0 <= i < |ts| && ts[i].Live? ==> SameBytes(m, m', ts[i].start, ts[i].size)
  }

  lemma FreeTileWrite(m: seq<byte>, m': seq<byte>, ts: seq<Tile>, k: nat, previous: nat, p: int)
    requires |m| < END && Tiling(ts, 0, |m|) && k < |ts| && ts[k].Free?
    requires OnlyTile(m, m', ts[k].start, EndOf(ts[k]), previous)
    requires -1 <= p < |ts| && (p < 0 ==> previous == END) && (p >= 0 ==> ts[p].Free? && previous == ts[p].start)
    ensures LiveKept(m, m', ts)
  {
    hide Tiling, SameBytes, OnlyTile;
    SameLength(m, m', ts[k].start, EndOf(ts[k]), previous);
    forall i | 0 <= i < |ts| && ts[i].Live?
      ensures SameBytes(m, m', ts[i].start, ts[i].size)
    {
      OtherTilesKept(m, m', ts, k, previous, p, i);
    }
  }

  lemma LiveKeptFurther(m: seq<byte>, m1: seq<byte>, m2: seq<byte>, ts: seq<Tile>)
    requires LiveKept(m, m1, ts) && LiveKept(m1, m2, ts)
    ensures LiveKept(m, m2, ts)
  {
    forall i | 0 <= i < |ts| && ts[i].Live?
      ensures SameBytes(m, m2, ts[i].start, ts[i].size)
    {
      assert SameBytes(m, m1, ts[i].start, ts[i].size);
      assert SameBytes(m1, m2, ts[i].start, ts[i].size);
    }
  }

  /** The live tiles of `a` and of `b` are the same. */
  ghost predicate SameLive(a: seq<Tile>, b: seq<Tile>)
  {
    && (forall i :: 0 <= i < |a| && a[i].Live? ==> a[i] in b)
    && (forall i :: 0 <= i < |b| && b[i].Live? ==> b[i] in a)
  }

  lemma MergeSameLive(ts: seq<Tile>, k: nat)
    requires k + 1 < |ts| && ts[k].Free? && ts[k + 1].Free?
    ensures SameLive(ts, Merge(ts, k))
  {
    hide Merge;
    var r := Merge(ts, k);
    forall i | 0 <= i < |ts| && ts[i].Live?
      ensures ts[i] in r
    {
      if i < k {
        assert r[i] == ts[i];
      } else {
        assert r[i - 1] == ts[i];
      }
    }
  }

  lemma LiveKeptSame(m: seq<byte>, m': seq<byte>, a: seq<Tile>, b: seq<Tile>)
    requires LiveKept(m, m', a) && SameLive(a, b)
    ensures LiveKept(m, m', b)
  {
    hide SameBytes;
    forall i | 0 <= i < |b| && b[i].Live?
      ensures SameBytes(m, m', b[i].start, b[i].size)
    {
      var j :| 0 <= j < |a| && a[j] == b[i];
    }
  }

  lemma SameLiveThrough(a: seq<Tile>, b: seq<Tile>, c: seq<Tile>)
    requires SameLive(a, b) && SameLive(b, c)
    ensures SameLive(a, c)
  {
    forall i | 0 <= i < |a| && a[i].Live?
      ensures a[i] in c
    {
      var j :| 0 <= j < |b| && b[j] == a[i];
    }
    forall i | 0 <= i < |c| && c[i].Live?
      ensures c[i] in a
    {
      var j :| 0 <= j < |b| && b[j] == c[i];
    }
  }

  /** A write inside a live tile leaves the list and the other live tiles alone. */
  lemma LiveTileWrite(m: seq<byte>, m': seq<byte>, head: nat, ts: seq<Tile>, k: nat)
    requires |m| < END && Tiling(ts, 0, |m|) && k < |ts| && ts[k].Live? && Seg(m, head, ts, END)
    requires OnlyTile(m, m', ts[k].start, EndOf(ts[k]), END)
    ensures Seg(m', head, ts, END)
    ensures forall i :: 0 <= i < |ts| && i != k && ts[i].Live? ==> SameBytes(m, m', ts[i].start, ts[i].size)
  {
    hide Tiling, Seg;
    forall i | 0 <= i < |ts| && i != k
      ensures SameBytes(m, m', ts[i].start, ts[i].size) && ts[i].size >= FREE_HEADER
    {
      TilesInside(ts, 0, |m|, i);
      if i < k {
        TilesApart(ts, 0, |m|, i, k);
      } else {
        TilesApart(ts, 0, |m|, k, i);
      }
    }
    SegFrame(m, m', head, ts, END);
  }

  /** The next free block touches tile `k` exactly when the next tile is free. */
  lemma NextTouches(m: seq<byte>, head: nat, ts: seq<Tile>, previous: nat, current: nat, p: int, c: nat, k: nat)
    requires |m| < END && Tiling(ts, 0, |m|) && Cursor(m, head, ts, previous, current, p, c) && p < k < c
    ensures current == EndOf(ts[k]) <==> k + 1 < |ts| && ts[k + 1].Free?
    ensures current == EndOf(ts[k]) ==> c == k + 1 && k + 1 < |ts| && ts[k + 1].start == current
  {
    hide Tiling, Seg, SizeField, NextField;
    TilesInside(ts, 0, |m|, k);
    if k + 1 < |ts| {
      MergeTiling(ts, |m|, k);
      if c > k + 1 {
        if p < 0 {
          assert ts[..c][k + 1] == ts[k + 1];
        } else {
          assert ts[p + 1..c][k - p] == ts[k + 1];
        }
        TilesInside(ts, 0, |m|, k + 1);
        if c < |ts| {
          TilesApart(ts, 0, |m|, k + 1, c);
        }
      }
    }
  }

  /** The previous free block touches tile `k` exactly when the previous tile is free. */
  lemma PreviousTouches(m: seq<byte>, head: nat, ts: seq<Tile>, previous: nat, current: nat, p: int, k: nat)
    requires |m| < END && Tiling(ts, 0, |m|) && Behind(m, head, ts, previous, current, p, k) && k < |ts|
    ensures p >= 0 ==> (previous + ts[p].size == ts[k].start <==> ts[k - 1].Free?)
    ensures p < 0 ==> k == 0 || ts[k - 1].Live?
    ensures p >= 0 && ts[k - 1].Free? ==> p == k - 1
  {
    hide Tiling, Seg, SizeField, NextField;
    if p < 0 {
      assert k > 0 ==> ts[..k][k - 1] == ts[k - 1];
    } else if p < k - 1 {
      assert ts[p + 1..k][k - 1 - (p + 1)] == ts[k - 1];
      TilesInside(ts, 0, |m|, k - 1);
      TilesApart(ts, 0, |m|, p, k - 1);
      TilesApart(ts, 0, |m|, k - 1, k);
    } else {
      MergeTiling(ts, |m|, p);
    }
  }

  /** Between the cursor and the free block before it there is only live data, so
      the cursor may stand at any tile in between. */
  lemma CursorAt(m: seq<byte>, head: nat, ts: seq<Tile>, previous: nat, current: nat, p: int, c: nat, k: nat)
    requires Cursor(m, head, ts, previous, current, p, c) && p < k < c && ts[k].Live?
    ensures Behind(m, head, ts, previous, current, p, k) && Seg(m, current, ts[k + 1..], END)
  {
    hide SizeField, NextField;
    var gap, first := ts[k + 1..c], p + 1;
    var between, before := ts[first..c], ts[first..k];
    assert ts[k + 1..] == gap + ts[c..];
    assert p < 0 ==> between == ts[..c] && before == ts[..k];
    assert forall i :: 0 <= i < |gap| ==> gap[i] == between[k - p + i];
    assert forall i :: 0 <= i < |before| ==> before[i] == between[i];
    SegLive(m, current, gap);
    SegJoin(m, current, gap, current, ts[c..], END);
  }
}
