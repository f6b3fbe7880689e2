/** The reclaiming heap as a tiling of its storage into free and live blocks, and
    the free list as it is stored inside the free blocks. */
module HeapTiles {
  import opened Bytes

  const END: nat := 0xffff_ffff_ffff_ffff
  const MAGIC: u64 := 0x4344_5848_4541_5031
  const FREE_HEADER: nat := 16
  const LIVE_HEADER: nat := 32

  /** A free block, or a live one with the offset handed out and the bytes asked for. */
  datatype Tile =
    | Free(start: nat, size: nat)
    | Live(start: nat, size: nat, user: nat, requested: nat)

  function EndOf(t: Tile): nat
  {
    t.start + t.size
  }

  predicate GoodTile(t: Tile)
  {
    && t.start % 8 == 0 && t.size % 8 == 0 && t.size >= FREE_HEADER
    && (t.Live? ==> t.start + LIVE_HEADER <= t.user && t.requested > 0 && t.user + t.requested <= EndOf(t))
  }

  /** The tiles cover `[from, to)` without gap or overlap. */
  predicate Tiling(ts: seq<Tile>, from: nat, to: nat)
  {
    if ts == [] then from == to
    else ts[0].start == from && GoodTile(ts[0]) && Tiling(ts[1..], EndOf(ts[0]), to)
  }

  predicate Coalesced(ts: seq<Tile>)
  {
    forall i :: 0 <= i < |ts| - 1 ==> !(ts[i].Free? && ts[i + 1].Free?)
  }

  lemma {:induction false} TilingSplit(ts: seq<Tile>, from: nat, to: nat, k: nat)
    requires Tiling(ts, from, to) && k < |ts|
    ensures from <= ts[k].start < EndOf(ts[k]) <= to && GoodTile(ts[k])
    ensures Tiling(ts[..k], from, ts[k].start) && Tiling(ts[k + 1..], EndOf(ts[k]), to)
  {
    if k > 0 {
      TilingSplit(ts[1..], EndOf(ts[0]), to, k - 1);
      assert ts[1..][..k - 1] == ts[..k][1..];
      assert ts[1..][k..] == ts[k + 1..];
    } else {
      TilingBounds(ts[1..], EndOf(ts[0]), to);
    }
  }

  lemma {:induction false} TilingBounds(ts: seq<Tile>, from: nat, to: nat)
    requires Tiling(ts, from, to)
    ensures from <= to && (ts != [] ==> from < to)
  {
    if ts != [] {
      TilingBounds(ts[1..], EndOf(ts[0]), to);
    }
  }

  lemma {:induction false} TilingJoin(a: seq<Tile>, b: seq<Tile>, from: nat, mid: nat, to: nat)
    requires Tiling(a, from, mid) && Tiling(b, mid, to)
    ensures Tiling(a + b, from, to)
  {
    if a == [] {
      assert a + b == b;
    } else {
      TilingJoin(a[1..], b, EndOf(a[0]), mid, to);
      assert (a + b)[1..] == a[1..] + b;
    }
  }

  lemma {:induction false} TilesInside(ts: seq<Tile>, from: nat, to: nat, k: nat)
    requires Tiling(ts, from, to) && k < |ts|
    ensures from <= ts[k].start && EndOf(ts[k]) <= to && GoodTile(ts[k])
  {
    TilingSplit(ts, from, to, k);
  }

  // ----- The list segment over a run of tiles

  function SizeField(m: seq<byte>, at: nat): u64
    requires at + FREE_HEADER <= |m|
  {
    U64At(m, at)
  }

  function NextField(m: seq<byte>, at: nat): u64
    requires at + FREE_HEADER <= |m|
  {
    U64At(m, at + 8)
  }

  /** Following the links from `head` visits exactly the free tiles of `ts`, in
      order, and ends at `tail`. */
  predicate Seg(m: seq<byte>, head: nat, ts: seq<Tile>, tail: nat)
    decreases ts
  {
    if ts == [] then head == tail
    else if ts[0].Live? then Seg(m, head, ts[1..], tail)
    else
      && head == ts[0].start && head + FREE_HEADER <= |m|
      && SizeField(m, head) == ts[0].size
      && Seg(m, NextField(m, head), ts[1..], tail)
  }

  lemma {:induction false} SegJoin(m: seq<byte>, head: nat, a: seq<Tile>, mid: nat, b: seq<Tile>, tail: nat)
    requires Seg(m, head, a, mid) && Seg(m, mid, b, tail)
    ensures Seg(m, head, a + b, tail)
    decreases a
  {
    hide SizeField, NextField;
    if a == [] {
      assert a + b == b;
    } else {
      assert (a + b)[1..] == a[1..] + b;
      if a[0].Live? {
        SegJoin(m, head, a[1..], mid, b, tail);
      } else {
        SegJoin(m, NextField(m, head), a[1..], mid, b, tail);
      }
    }
  }

  ghost predicate SameBytes(m: seq<byte>, m': seq<byte>, at: nat, n: nat)
  {
    |m| == |m'| && forall k :: at <= k < at + n && k < |m| ==> m'[k] == m[k]
  }

  lemma SameFields(m: seq<byte>, m': seq<byte>, at: nat)
    requires at + FREE_HEADER <= |m| && SameBytes(m, m', at, FREE_HEADER)
    ensures SizeField(m', at) == SizeField(m, at) && NextField(m', at) == NextField(m, at)
  {
    SameU64(m, m', at);
    SameU64(m, m', at + 8);
    hide U64At;
  }

  lemma SameU64(m: seq<byte>, m': seq<byte>, at: nat)
    requires at + 8 <= |m| == |m'| && forall k :: at <= k < at + 8 ==> m'[k] == m[k]
    ensures U64At(m', at) == U64At(m, at)
  {
    hide FromLe32;
  }

  /** Bytes that a segment does not look at may change. */
  lemma {:induction false} SegFrame(m: seq<byte>, m': seq<byte>, head: nat, ts: seq<Tile>, tail: nat)
    requires Seg(m, head, ts, tail) && |m'| == |m|
    requires forall i :: 0 <= i < |ts| && ts[i].Free? ==> SameBytes(m, m', ts[i].start, FREE_HEADER)
    ensures Seg(m', head, ts, tail)
    decreases ts
  {
    hide SizeField, NextField, SameBytes;
    if ts != [] {
      if ts[0].Live? {
        SegFrame(m, m', head, ts[1..], tail);
      } else {
        SameFields(m, m', ts[0].start);
        SegFrame(m, m', NextField(m, head), ts[1..], tail);
      }
    }
  }

  // ----- Writing blocks

  function PutBlock(m: seq<byte>, at: nat, size: u64, next: u64): (r: seq<byte>)
    requires at + FREE_HEADER <= |m|
    ensures |r| == |m|
  {
    Put(Put(m, at, LeU64(size)), at + 8, LeU64(next))
  }

  function PutNext(m: seq<byte>, at: nat, next: u64): (r: seq<byte>)
    requires at + FREE_HEADER <= |m|
    ensures |r| == |m|
  {
    Put(m, at + 8, LeU64(next))
  }

  lemma PutBlockReads(m: seq<byte>, at: nat, size: u64, next: u64)
    requires at + FREE_HEADER <= |m|
    ensures SizeField(PutBlock(m, at, size, next), at) == size && NextField(PutBlock(m, at, size, next), at) == next
  {
    hide LeU64, U64At;
    var r := PutBlock(m, at, size, next);
    assert r[at..at + 8] == LeU64(size);
    assert r[at + 8..at + 16] == LeU64(next);
    U64RoundTrip(r, at, size);
    U64RoundTrip(r, at + 8, next);
  }

  lemma PutNextReads(m: seq<byte>, at: nat, next: u64)
    requires at + FREE_HEADER <= |m|
    ensures SizeField(PutNext(m, at, next), at) == SizeField(m, at) && NextField(PutNext(m, at, next), at) == next
  {
    hide LeU64, U64At;
    var r := PutNext(m, at, next);
    assert r[at + 8..at + 16] == LeU64(next);
    U64RoundTrip(r, at + 8, next);
    SameU64(m, r, at);
  }

  // ----- A position between two runs of tiles

  ghost predicate AllLive(ts: seq<Tile>)
  {
    forall i :: 0 <= i < |ts| ==> ts[i].Live?
  }

  lemma {:induction false} SegLive(m: seq<byte>, x: nat, ts: seq<Tile>)
    requires AllLive(ts)
    ensures Seg(m, x, ts, x)
  {
    if ts != [] {
      SegLive(m, x, ts[1..]);
    }
  }

  /** `previous`, if any, is the last free block of `ts[..k]`, at position `p`, and
      what comes before leads to `current`. */
  ghost predicate Behind(m: seq<byte>, head: nat, ts: seq<Tile>, previous: nat, current: nat, p: int, k: nat)
  {
    && -1 <= p < k <= |ts|
    && (p < 0 ==> previous == END && AllLive(ts[..k]) && head == current)
    && (p >= 0 ==>
          && ts[p].Free? && previous == ts[p].start && AllLive(ts[p + 1..k])
          && Seg(m, head, ts[..p], previous)
          && previous + FREE_HEADER <= |m| && SizeField(m, previous) == ts[p].size && NextField(m, previous) == current)
  }

  /** The cursor of a traversal: `current` is the first free block of `ts[k..]`. */
  ghost predicate Cursor(m: seq<byte>, head: nat, ts: seq<Tile>, previous: nat, current: nat, p: int, k: nat)
  {
    && Behind(m, head, ts, previous, current, p, k)
    && (k < |ts| ==> ts[k].Free? && ts[k].start == current) && (k == |ts| ==> current == END)
    && Seg(m, current, ts[k..], END)
  }

  /** Passes over live tiles to the next free one. */
  lemma {:induction false} SkipLive(m: seq<byte>, x: nat, ts: seq<Tile>) returns (j: nat)
    requires Seg(m, x, ts, END)
    ensures j <= |ts| && AllLive(ts[..j]) && Seg(m, x, ts[j..], END)
    ensures j < |ts| ==> ts[j].Free? && ts[j].start == x
    ensures j == |ts| ==> x == END
    decreases ts
  {
    hide SizeField, NextField;
    if ts == [] || ts[0].Free? {
      j := 0;
      assert ts[0..] == ts;
    } else {
      var i := SkipLive(m, x, ts[1..]);
      j := i + 1;
      assert ts[1..][i..] == ts[j..];
      assert forall n :: 0 < n < j ==> ts[n] == ts[1..][..i][n - 1];
    }
  }

  lemma CursorStart(m: seq<byte>, head: nat, ts: seq<Tile>) returns (k: nat)
    requires Seg(m, head, ts, END)
    ensures Cursor(m, head, ts, END, head, -1, k)
  {
    hide SizeField, NextField;
    k := SkipLive(m, head, ts);
  }

  lemma CursorNext(m: seq<byte>, head: nat, ts: seq<Tile>, previous: nat, current: nat, p: int, k: nat)
    returns (k': nat)
    requires Cursor(m, head, ts, previous, current, p, k) && k < |ts|
    ensures current + FREE_HEADER <= |m| && SizeField(m, current) == ts[k].size
    ensures k < k' && Cursor(m, head, ts, current, NextField(m, current), k, k')
  {
    hide SizeField, NextField;
    assert ts[k..][1..] == ts[k + 1..];
    var j := SkipLive(m, NextField(m, current), ts[k + 1..]);
    k' := k + 1 + j;
    assert ts[k + 1..][j..] == ts[k'..];
    assert ts[k + 1..][..j] == ts[k + 1..k'];
    if p < 0 {
      SegLive(m, head, ts[..k]);
    } else {
      SegUpTo(m, head, ts, previous, current, p, k);
    }
  }

  /** Everything before the cursor leads to `current`. */
  lemma SegUpTo(m: seq<byte>, head: nat, ts: seq<Tile>, previous: nat, current: nat, p: int, k: nat)
    requires Behind(m, head, ts, previous, current, p, k) && p >= 0
    ensures Seg(m, head, ts[..k], current)
  {
    hide SizeField, NextField;
    assert ts[..k] == ts[..p] + ([ts[p]] + ts[p + 1..k]);
    SegLive(m, current, ts[p + 1..k]);
    assert ([ts[p]] + ts[p + 1..k])[1..] == ts[p + 1..k];
    assert Seg(m, previous, [ts[p]] + ts[p + 1..k], current);
    SegJoin(m, head, ts[..p], previous, [ts[p]] + ts[p + 1..k], current);
  }

  // ----- Changing the list at the cursor

  /** Lets whatever leads to the cursor lead to `target` instead. */
  function Relink(m: seq<byte>, previous: nat, target: u64): (r: seq<byte>)
    requires previous == END || previous + FREE_HEADER <= |m|
    ensures |r| == |m|
  {
    if previous == END then m else PutNext(m, previous, target)
  }

  function RelinkHead(head: nat, previous: nat, target: nat): nat
  {
    if previous == END then target else head
  }

  lemma TilesApart(ts: seq<Tile>, from: nat, to: nat, i: nat, j: nat)
    requires Tiling(ts, from, to) && i < j < |ts|
    ensures EndOf(ts[i]) <= ts[j].start
  {
    TilingSplit(ts, from, to, j);
    assert ts[..j][i] == ts[i];
    TilesInside(ts[..j], from, ts[j].start, i);
  }

  lemma RelinkLeads(m: seq<byte>, head: nat, ts: seq<Tile>, previous: nat, current: nat, p: int, k: nat, target: u64)
    requires Behind(m, head, ts, previous, current, p, k) && Tiling(ts, 0, |m|) && |m| < END
    ensures previous == END || previous + FREE_HEADER <= |m|
    ensures previous == END <==> p < 0
    ensures Seg(Relink(m, previous, target), RelinkHead(head, previous, target), ts[..k], target)
  {
    hide SizeField, NextField, Tiling, PutNext;
    if p < 0 {
      SegLive(m, target, ts[..k]);
    } else {
      var m' := PutNext(m, previous, target);
      PutNextReads(m, previous, target);
      forall i | 0 <= i < p && ts[..p][i].Free?
        ensures SameBytes(m, m', ts[..p][i].start, FREE_HEADER)
      {
        TilesApart(ts, 0, |m|, i, p);
        TilesInside(ts, 0, |m|, i);
        PutNextOff(m, previous, target, ts[i].start, FREE_HEADER);
      }
      SegFrame(m, m', head, ts[..p], previous);
      assert Behind(m', head, ts, previous, target, p, k);
      SegUpTo(m', head, ts, previous, target, p, k);
    }
  }

  lemma PutNextOff(m: seq<byte>, at: nat, next: u64, lo: nat, n: nat)
    requires at + FREE_HEADER <= |m| && (lo + n <= at || at + FREE_HEADER <= lo)
    ensures SameBytes(m, PutNext(m, at, next), lo, n)
  {
    hide LeU64;
  }

  /** `m'` differs from `m` only inside tile `k` and the link field at `previous`. */
  ghost predicate OnlyTile(m: seq<byte>, m': seq<byte>, lo: nat, hi: nat, previous: nat)
  {
    && |m| == |m'|
    && forall x :: 0 <= x < |m| && m'[x] != m[x] ==> lo <= x < hi || previous + 8 <= x < previous + FREE_HEADER
  }

  /** Every other live tile keeps all of its bytes. */
  lemma OtherTilesKept(m: seq<byte>, m': seq<byte>, ts: seq<Tile>, k: nat, previous: nat, p: int, i: nat)
    requires Tiling(ts, 0, |m|) && k < |ts| && i < |ts| && i != k && |m| < END
    requires OnlyTile(m, m', ts[k].start, EndOf(ts[k]), previous)
    requires -1 <= p < |ts| && (p < 0 ==> previous == END) && (p >= 0 ==> ts[p].Free? && previous == ts[p].start)
    ensures ts[i].Live? ==> SameBytes(m, m', ts[i].start, ts[i].size)
    ensures i > k && p < k && ts[i].Free? ==> SameBytes(m, m', ts[i].start, FREE_HEADER)
  {
    hide Tiling;
    TilesInside(ts, 0, |m|, i);
    if i < k {
      TilesApart(ts, 0, |m|, i, k);
    } else {
      TilesApart(ts, 0, |m|, k, i);
    }
    if p >= 0 && p != i {
      TilesInside(ts, 0, |m|, p);
      if p < i {
        TilesApart(ts, 0, |m|, p, i);
      } else {
        TilesApart(ts, 0, |m|, i, p);
      }
    }
  }

  /** The list behind the changed tile is untouched. */
  lemma AheadKept(m: seq<byte>, m': seq<byte>, ts: seq<Tile>, k: nat, previous: nat, p: int, x: nat)
    requires Tiling(ts, 0, |m|) && k < |ts| && |m| < END && Seg(m, x, ts[k + 1..], END)
    requires OnlyTile(m, m', ts[k].start, EndOf(ts[k]), previous)
    requires -1 <= p < k && (p < 0 ==> previous == END) && (p >= 0 ==> ts[p].Free? && previous == ts[p].start)
    ensures Seg(m', x, ts[k + 1..], END)
  {
    hide Tiling, Seg, SameBytes, OnlyTile;
    var tail := ts[k + 1..];
    forall i | 0 <= i < |tail| && tail[i].Free?
      ensures SameBytes(m, m', tail[i].start, FREE_HEADER)
    {
      OtherTilesKept(m, m', ts, k, previous, p, k + 1 + i);
    }
    assert |m| == |m'| by { SameLength(m, m', ts[k].start, EndOf(ts[k]), previous); }
    SegFrame(m, m', x, tail, END);
  }

  lemma SameLength(m: seq<byte>, m': seq<byte>, lo: nat, hi: nat, previous: nat)
    requires OnlyTile(m, m', lo, hi, previous)
    ensures |m| == |m'|
  {
  }
}
