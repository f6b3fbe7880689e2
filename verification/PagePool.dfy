/** The physical page pool as sets of pages: regions handed out from the front, and
    a sorted table of returned extents. Pages are counted in units of 4 KiB. */
module PagePool {
  import opened Wrappers

  const MAX_FREE_EXTENTS: nat := 1024

  /** Pages `[start, start + count)`, of which the first `next` were handed out. */
  datatype Region = Region(start: nat, count: nat, next: nat)

  datatype Extent = Extent(start: nat, count: nat)

  datatype Pool = Pool(regions: seq<Region>, extents: seq<Extent>, allocatedPages: nat)

  function EndOf(e: Extent): nat
  {
    e.start + e.count
  }

  // ----- Sets of pages

  ghost predicate Within(p: nat, start: nat, n: nat)
  {
    start <= p < start + n
  }

  ghost function Interval(start: nat, n: nat): set<nat>
  {
    set p: nat | p < start + n && Within(p, start, n)
  }

  ghost function Pages(es: seq<Extent>): set<nat>
  {
    if es == [] then {} else Pages(es[..|es| - 1]) + Interval(es[|es| - 1].start, es[|es| - 1].count)
  }

  /** The part of each region that was handed out at some time. */
  ghost function Used(rs: seq<Region>): (es: seq<Extent>)
    ensures |es| == |rs|
    ensures forall i :: 0 <= i < |rs| ==> es[i] == Extent(rs[i].start, rs[i].next)
  {
    seq(|rs|, i requires 0 <= i < |rs| => Extent(rs[i].start, rs[i].next))
  }

  /** The pages handed out and not given back. */
  ghost function Live(pool: Pool): set<nat>
  {
    Pages(Used(pool.regions)) - Pages(pool.extents)
  }

  lemma {:induction false} IntervalSize(start: nat, n: nat)
    ensures |Interval(start, n)| == n
  {
    if n > 0 {
      IntervalSize(start, n - 1);
      assert Interval(start, n) == Interval(start, n - 1) + {start + n - 1};
    } else {
      assert Interval(start, 0) == {};
    }
  }

  ghost predicate InExtent(es: seq<Extent>, p: nat, i: nat)
  {
    i < |es| && Within(p, es[i].start, es[i].count)
  }

  lemma {:induction false} PagesMember(es: seq<Extent>, p: nat)
    ensures p in Pages(es) <==> exists i: nat :: InExtent(es, p, i)
  {
    if es != [] {
      var last := |es| - 1;
      var front := es[..last];
      PagesMember(front, p);
      if exists i: nat :: InExtent(front, p, i) {
        var i: nat :| InExtent(front, p, i);
        assert InExtent(es, p, i);
      }
      if Within(p, es[last].start, es[last].count) {
        assert InExtent(es, p, last);
      }
      if exists i: nat :: InExtent(es, p, i) {
        var i: nat :| InExtent(es, p, i);
        if i < last {
          assert InExtent(front, p, i);
        }
      }
    }
  }

  lemma {:induction false} PagesConcat(a: seq<Extent>, b: seq<Extent>)
    ensures Pages(a + b) == Pages(a) + Pages(b)
  {
    if b == [] {
      assert a + b == a;
    } else {
      var last := |b| - 1;
      assert (a + b)[..|a + b| - 1] == a + b[..last];
      PagesConcat(a, b[..last]);
    }
  }

  lemma PagesOne(e: Extent)
    ensures Pages([e]) == Interval(e.start, e.count)
  {
    assert [e][..0] == [];
    assert Pages([]) == {};
  }

  // ----- The invariant

  /** Sorted, with a gap between neighbours: disjoint and fully merged. */
  ghost predicate Merged(es: seq<Extent>)
  {
    && (forall i :: 0 <= i < |es| ==> es[i].count > 0)
    && (forall i, j :: 0 <= i < j < |es| ==> EndOf(es[i]) < es[j].start)
  }

  ghost predicate Apart(rs: seq<Region>)
  {
    && (forall i :: 0 <= i < |rs| ==> rs[i].next <= rs[i].count)
    && (forall i, j :: 0 <= i < j < |rs| ==>
          rs[i].start + rs[i].count <= rs[j].start || rs[j].start + rs[j].count <= rs[i].start)
  }

  ghost predicate PoolOk(pool: Pool)
  {
    && Apart(pool.regions)
    && Merged(pool.extents) && |pool.extents| <= MAX_FREE_EXTENTS
    && Pages(pool.extents) <= Pages(Used(pool.regions))
    && pool.allocatedPages == |Live(pool)|
  }

  // ----- Replacing part of the extent table

  function Splice(es: seq<Extent>, a: nat, b: nat, middle: seq<Extent>): seq<Extent>
    requires a <= b <= |es|
  {
    es[..a] + middle + es[b..]
  }

  lemma SplicePages(es: seq<Extent>, a: nat, b: nat, middle: seq<Extent>)
    requires a <= b <= |es|
    ensures Pages(es) == Pages(es[..a]) + Pages(es[a..b]) + Pages(es[b..])
    ensures Pages(Splice(es, a, b, middle)) == Pages(es[..a]) + Pages(middle) + Pages(es[b..])
  {
    hide Pages;
    assert es == es[..a] + es[a..b] + es[b..];
    PagesConcat(es[..a] + es[a..b], es[b..]);
    PagesConcat(es[..a], es[a..b]);
    PagesConcat(es[..a] + middle, es[b..]);
    PagesConcat(es[..a], middle);
  }

  /** The new piece keeps a gap to both neighbours. */
  ghost predicate FitsBetween(es: seq<Extent>, a: nat, b: nat, middle: seq<Extent>)
  {
    && a <= b <= |es| && |middle| <= 1
    && (middle != [] ==>
          && middle[0].count > 0
          && (a > 0 ==> EndOf(es[a - 1]) < middle[0].start)
          && (b < |es| ==> EndOf(middle[0]) < es[b].start))
  }

  lemma SpliceAt(es: seq<Extent>, a: nat, b: nat, middle: seq<Extent>, i: nat)
    requires a <= b <= |es| && |middle| <= 1 && i < |Splice(es, a, b, middle)|
    ensures |Splice(es, a, b, middle)| == a + |middle| + |es| - b
    ensures Splice(es, a, b, middle)[i] ==
      if i < a then es[i] else if i < a + |middle| then middle[0] else es[i - a - |middle| + b]
  {
  }

  lemma SpliceMerged(es: seq<Extent>, a: nat, b: nat, middle: seq<Extent>)
    requires Merged(es) && FitsBetween(es, a, b, middle)
    ensures Merged(Splice(es, a, b, middle))
  {
    hide Splice;
    var r := Splice(es, a, b, middle);
    forall i | 0 <= i < |r|
      ensures r[i].count > 0
    {
      SpliceAt(es, a, b, middle, i);
    }
    forall i, j | 0 <= i < j < |r|
      ensures EndOf(r[i]) < r[j].start
    {
      SpliceAt(es, a, b, middle, i);
      SpliceAt(es, a, b, middle, j);
      if a <= i < a + |middle| || a <= j < a + |middle| {
        GapsToMiddle(es, a, b, middle);
      }
    }
  }

  lemma GapsToMiddle(es: seq<Extent>, a: nat, b: nat, middle: seq<Extent>)
    requires Merged(es) && FitsBetween(es, a, b, middle) && middle != []
    ensures forall i :: 0 <= i < a ==> EndOf(es[i]) < middle[0].start
    ensures forall i :: b <= i < |es| ==> EndOf(middle[0]) < es[i].start
  {
  }

  lemma PagesBelow(es: seq<Extent>, x: nat, p: nat)
    requires forall i :: 0 <= i < |es| ==> EndOf(es[i]) <= x
    ensures p in Pages(es) ==> p < x
  {
    hide Pages;
    PagesMember(es, p);
  }

  lemma PagesAbove(es: seq<Extent>, x: nat, p: nat)
    requires forall i :: 0 <= i < |es| ==> x <= es[i].start
    ensures p in Pages(es) ==> x <= p
  {
    hide Pages;
    PagesMember(es, p);
  }

  // ----- Taking pages

  /** The first extent with room for `n` pages, or the table's length. */
  function FirstExtent(es: seq<Extent>, n: nat): (i: nat)
    ensures i <= |es|
    ensures i < |es| ==> es[i].count >= n
    ensures forall k :: 0 <= k < i ==> es[k].count < n
  {
    if es == [] || es[0].count >= n then 0 else
      var i := FirstExtent(es[1..], n);
      assert forall k :: 0 < k < i + 1 ==> es[k] == es[1..][k - 1];
      i + 1
  }

  /** The first region with `n` fresh pages left, or the table's length. */
  function FirstRegion(rs: seq<Region>, n: nat): (i: nat)
    ensures i <= |rs|
    ensures i < |rs| ==> rs[i].count - rs[i].next >= n
    ensures forall k :: 0 <= k < i ==> rs[k].count - rs[k].next < n
  {
    if rs == [] || rs[0].count - rs[0].next >= n then 0 else
      var i := FirstRegion(rs[1..], n);
      assert forall k :: 0 < k < i + 1 ==> rs[k] == rs[1..][k - 1];
      i + 1
  }

  /** What is left of an extent whose first `n` pages are taken. */
  function Rest(e: Extent, n: nat): seq<Extent>
    requires n <= e.count
  {
    if n == e.count then [] else [Extent(e.start + n, e.count - n)]
  }

  /** The extent table after `n` pages were taken off the front of extent `i`. */
  function Shorten(es: seq<Extent>, i: nat, n: nat): seq<Extent>
    requires i < |es| && n <= es[i].count
  {
    Splice(es, i, i + 1, Rest(es[i], n))
  }

  function Advance(rs: seq<Region>, i: nat, n: nat): seq<Region>
    requires i < |rs|
  {
    rs[i := Region(rs[i].start, rs[i].count, rs[i].next + n)]
  }

  /** First fit: a returned extent if one is large enough, fresh pages of a region if not. */
  function Allocate(pool: Pool, n: nat): (Pool, Option<nat>)
  {
    if n == 0 then (pool, None)
    else
      var i := FirstExtent(pool.extents, n);
      if i < |pool.extents| then
        (Pool(pool.regions, Shorten(pool.extents, i, n), pool.allocatedPages + n), Some(pool.extents[i].start))
      else
        var k := FirstRegion(pool.regions, n);
        if k < |pool.regions| then
          (Pool(Advance(pool.regions, k, n), pool.extents, pool.allocatedPages + n),
           Some(pool.regions[k].start + pool.regions[k].next))
        else (pool, None)
  }

  lemma IntervalSplit(start: nat, n: nat, m: nat)
    ensures Interval(start, n + m) == Interval(start, n) + Interval(start + n, m)
    ensures Interval(start, n) !! Interval(start + n, m)
  {
  }

  lemma ShortenMerged(es: seq<Extent>, i: nat, n: nat)
    requires Merged(es) && i < |es| && 0 < n <= es[i].count
    ensures Merged(Shorten(es, i, n)) && |Shorten(es, i, n)| <= |es|
  {
    SpliceMerged(es, i, i + 1, Rest(es[i], n));
  }

  /** An extent of a merged table shares no page with the extents around it. */
  lemma NeighboursDisjoint(es: seq<Extent>, i: nat)
    requires Merged(es) && i < |es|
    ensures Interval(es[i].start, es[i].count) !! Pages(es[..i])
    ensures Interval(es[i].start, es[i].count) !! Pages(es[i + 1..])
  {
    hide Pages;
    forall p: nat | p in Interval(es[i].start, es[i].count)
      ensures p !in Pages(es[..i]) && p !in Pages(es[i + 1..])
    {
      PagesBelow(es[..i], es[i].start, p);
      PagesAbove(es[i + 1..], EndOf(es[i]), p);
    }
  }

  lemma CutOut(a: set<nat>, i: set<nat>, j: set<nat>, c: set<nat>)
    requires i + j !! a && i + j !! c && i !! j
    ensures a + (i + j) + c - i == a + j + c
    ensures i <= a + (i + j) + c
  {
  }

  lemma SpliceCut(es: seq<Extent>, i: nat, middle: seq<Extent>, cut: set<nat>, rest: set<nat>)
    requires i < |es| && Pages(es[i..i + 1]) == cut + rest && Pages(middle) == rest
    requires cut + rest !! Pages(es[..i]) && cut + rest !! Pages(es[i + 1..]) && cut !! rest
    ensures Pages(Splice(es, i, i + 1, middle)) == Pages(es) - cut && cut <= Pages(es)
  {
    hide *;
    SplicePages(es, i, i + 1, middle);
    CutOut(Pages(es[..i]), cut, rest, Pages(es[i + 1..]));
  }

  lemma RestPages(e: Extent, n: nat)
    requires n <= e.count
    ensures Pages(Rest(e, n)) == Interval(e.start + n, e.count - n)
  {
    if n == e.count {
      assert Interval(e.start + n, 0) == {};
    } else {
      PagesOne(Extent(e.start + n, e.count - n));
    }
  }

  lemma ShortenPages(es: seq<Extent>, i: nat, n: nat)
    requires Merged(es) && i < |es| && 0 < n <= es[i].count
    ensures Pages(Shorten(es, i, n)) == Pages(es) - Interval(es[i].start, n)
    ensures Interval(es[i].start, n) <= Pages(es)
  {
    hide Pages, Merged, Splice, Interval, Rest;
    assert es[i..i + 1] == [es[i]];
    PagesOne(es[i]);
    RestPages(es[i], n);
    NeighboursDisjoint(es, i);
    IntervalSplit(es[i].start, n, es[i].count - n);
    SpliceCut(es, i, Rest(es[i], n), Interval(es[i].start, n), Interval(es[i].start + n, es[i].count - n));
  }

  lemma AdvancePages(rs: seq<Region>, i: nat, n: nat)
    requires Apart(rs) && i < |rs| && n <= rs[i].count - rs[i].next
    ensures Apart(Advance(rs, i, n))
    ensures Pages(Used(Advance(rs, i, n))) == Pages(Used(rs)) + Interval(rs[i].start + rs[i].next, n)
    ensures Pages(Used(rs)) !! Interval(rs[i].start + rs[i].next, n)
  {
    hide Pages;
    var us := Used(rs);
    var grown := Extent(rs[i].start, rs[i].next + n);
    assert Used(Advance(rs, i, n)) == Splice(us, i, i + 1, [grown]);
    SplicePages(us, i, i + 1, [grown]);
    assert us[i..i + 1] == [us[i]];
    PagesOne(us[i]);
    PagesOne(grown);
    assert Interval(grown.start, grown.count) ==
      Interval(us[i].start, us[i].count) + Interval(rs[i].start + rs[i].next, n);
    forall p: nat | p in Interval(rs[i].start + rs[i].next, n)
      ensures p !in Pages(us)
    {
      PagesMember(us, p);
    }
  }

  /** Pages move between the live set and its complement within the used regions. */
  lemma LiveSizes(used: set<nat>, free: set<nat>, moved: set<nat>)
    ensures moved <= free <= used ==>
      used - (free - moved) == (used - free) + moved && |used - (free - moved)| == |used - free| + |moved|
    ensures moved !! used && free <= used ==>
      (used + moved) - free == (used - free) + moved && |(used + moved) - free| == |used - free| + |moved|
  {
    if moved <= free <= used {
      assert used - (free - moved) == (used - free) + moved;
    }
    if moved !! used && free <= used {
      assert (used + moved) - free == (used - free) + moved;
    }
  }

  /** Pages that nobody held before are the only ones newly held after. */
  ghost predicate Granted(before: Pool, start: nat, n: nat, after: Pool)
  {
    && Interval(start, n) !! Live(before)
    && Live(after) == Live(before) + Interval(start, n)
    && after.allocatedPages == before.allocatedPages + n
  }

  lemma GrantFromExtent(pool: Pool, i: nat, n: nat)
    requires PoolOk(pool) && i < |pool.extents| && 0 < n <= pool.extents[i].count
    ensures var after := Pool(pool.regions, Shorten(pool.extents, i, n), pool.allocatedPages + n);
      PoolOk(after) && Granted(pool, pool.extents[i].start, n, after)
  {
    hide Pages, Merged, Apart, Used, Interval, Shorten;
    ShortenPages(pool.extents, i, n);
    ShortenMerged(pool.extents, i, n);
    IntervalSize(pool.extents[i].start, n);
    LiveSizes(Pages(Used(pool.regions)), Pages(pool.extents), Interval(pool.extents[i].start, n));
  }

  lemma GrantFromRegion(pool: Pool, k: nat, n: nat)
    requires PoolOk(pool) && k < |pool.regions| && n <= pool.regions[k].count - pool.regions[k].next
    ensures var after := Pool(Advance(pool.regions, k, n), pool.extents, pool.allocatedPages + n);
      PoolOk(after) && Granted(pool, pool.regions[k].start + pool.regions[k].next, n, after)
  {
    hide Pages, Merged, Apart, Used, Interval, Advance;
    AdvancePages(pool.regions, k, n);
    IntervalSize(pool.regions[k].start + pool.regions[k].next, n);
    LiveSizes(Pages(Used(pool.regions)), Pages(pool.extents),
              Interval(pool.regions[k].start + pool.regions[k].next, n));
  }

  /** Allocation hands out pages nobody holds, and only those; it fails exactly when no
      extent and no region has room, and then changes nothing. */
  lemma AllocateMeaning(pool: Pool, n: nat)
    requires PoolOk(pool)
    ensures var (after, got) := Allocate(pool, n);
      PoolOk(after)
      && (got.Some? ==> Granted(pool, got.value, n, after))
      && (got.None? ==> after == pool)
      && (got.None? <==>
            n == 0
            || ((forall i :: 0 <= i < |pool.extents| ==> pool.extents[i].count < n)
                && (forall i :: 0 <= i < |pool.regions| ==> pool.regions[i].count - pool.regions[i].next < n)))
  {
    hide PoolOk, Granted, Shorten, Advance, FirstExtent, FirstRegion;
    if n > 0 {
      var i := FirstExtent(pool.extents, n);
      var k := FirstRegion(pool.regions, n);
      if i < |pool.extents| {
        GrantFromExtent(pool, i, n);
      } else if k < |pool.regions| {
        GrantFromRegion(pool, k, n);
      }
    }
  }

  // ----- Giving pages back

  /** Where an extent starting at `start` belongs: before the first later one. */
  function Place(es: seq<Extent>, start: nat): (k: nat)
    ensures k <= |es|
    ensures k < |es| ==> es[k].start > start
    ensures forall i :: 0 <= i < k ==> es[i].start <= start
  {
    if es == [] || es[0].start > start then 0 else
      var k := Place(es[1..], start);
      assert forall i :: 0 < i < k + 1 ==> es[i] == es[1..][i - 1];
      k + 1
  }

  predicate TouchesLeft(es: seq<Extent>, start: nat)
  {
    var k := Place(es, start);
    k > 0 && EndOf(es[k - 1]) == start
  }

  predicate TouchesRight(es: seq<Extent>, start: nat, n: nat)
  {
    var k := Place(es, start);
    k < |es| && start + n == es[k].start
  }

  /** The table with the returned pages merged into the neighbours they touch. */
  function GiveBack(es: seq<Extent>, start: nat, n: nat): seq<Extent>
  {
    var k := Place(es, start);
    if TouchesLeft(es, start) && TouchesRight(es, start, n) then
      Splice(es, k - 1, k + 1, [Extent(es[k - 1].start, es[k - 1].count + n + es[k].count)])
    else if TouchesLeft(es, start) then
      Splice(es, k - 1, k, [Extent(es[k - 1].start, es[k - 1].count + n)])
    else if TouchesRight(es, start, n) then
      Splice(es, k, k + 1, [Extent(start, es[k].count + n)])
    else
      Splice(es, k, k, [Extent(start, n)])
  }

  predicate Overlaps(es: seq<Extent>, start: nat, n: nat)
  {
    exists i :: 0 <= i < |es| && start < EndOf(es[i]) && es[i].start < start + n
  }

  /** The pages lie in the handed-out part of one single region. */
  predicate Inside(rs: seq<Region>, start: nat, n: nat)
  {
    exists i :: 0 <= i < |rs| && rs[i].start <= start && start + n <= rs[i].start + rs[i].next
  }

  function Deallocate(pool: Pool, start: nat, n: nat): (Pool, bool)
  {
    if n == 0 || pool.allocatedPages < n || !Inside(pool.regions, start, n) || Overlaps(pool.extents, start, n)
    then (pool, false)
    else if !TouchesLeft(pool.extents, start) && !TouchesRight(pool.extents, start, n)
            && |pool.extents| >= MAX_FREE_EXTENTS
    then (pool, false)
    else (Pool(pool.regions, GiveBack(pool.extents, start, n), pool.allocatedPages - n), true)
  }

  lemma OverlapsIsShared(es: seq<Extent>, start: nat, n: nat)
    requires Merged(es) && n > 0
    ensures Overlaps(es, start, n) <==> Pages(es) * Interval(start, n) != {}
  {
    hide Pages;
    if Overlaps(es, start, n) {
      var i :| 0 <= i < |es| && start < EndOf(es[i]) && es[i].start < start + n;
      var p := if es[i].start <= start then start else es[i].start;
      PagesMember(es, p);
      assert InExtent(es, p, i);
      assert p in Pages(es) * Interval(start, n);
    }
    if Pages(es) * Interval(start, n) != {} {
      var p :| p in Pages(es) * Interval(start, n);
      PagesMember(es, p);
    }
  }

  lemma InsideIsUsed(rs: seq<Region>, start: nat, n: nat)
    requires Inside(rs, start, n)
    ensures Interval(start, n) <= Pages(Used(rs))
  {
    hide Pages;
    var i: nat :| i < |rs| && rs[i].start <= start && start + n <= rs[i].start + rs[i].next;
    forall p | p in Interval(start, n)
      ensures p in Pages(Used(rs))
    {
      PagesMember(Used(rs), p);
      assert InExtent(Used(rs), p, i);
    }
  }

  lemma GapsAround(es: seq<Extent>, start: nat, n: nat)
    requires Merged(es) && n > 0 && !Overlaps(es, start, n)
    ensures var k := Place(es, start);
      && (k > 0 ==> es[k - 1].count > 0 && EndOf(es[k - 1]) <= start)
      && (k < |es| ==> es[k].count > 0 && start + n <= es[k].start)
      && (k > 1 ==> EndOf(es[k - 2]) < es[k - 1].start)
      && (k + 1 < |es| ==> EndOf(es[k]) < es[k + 1].start)
  {
  }

  lemma GiveBackMerged(es: seq<Extent>, start: nat, n: nat)
    requires Merged(es) && n > 0 && !Overlaps(es, start, n)
    ensures Merged(GiveBack(es, start, n))
    ensures |GiveBack(es, start, n)| <= |es| + 1
    ensures TouchesLeft(es, start) || TouchesRight(es, start, n) ==> |GiveBack(es, start, n)| <= |es|
  {
    hide Merged, Overlaps, Place;
    GapsAround(es, start, n);
    var k := Place(es, start);
    if TouchesLeft(es, start) && TouchesRight(es, start, n) {
      SpliceMerged(es, k - 1, k + 1, [Extent(es[k - 1].start, es[k - 1].count + n + es[k].count)]);
    } else if TouchesLeft(es, start) {
      SpliceMerged(es, k - 1, k, [Extent(es[k - 1].start, es[k - 1].count + n)]);
    } else if TouchesRight(es, start, n) {
      SpliceMerged(es, k, k + 1, [Extent(start, es[k].count + n)]);
    } else {
      SpliceMerged(es, k, k, [Extent(start, n)]);
    }
  }

  /** Replacing a piece of the table by one extent that covers it and `more`. */
  lemma SpliceAdds(es: seq<Extent>, a: nat, b: nat, e: Extent, more: set<nat>)
    requires a <= b <= |es| && Interval(e.start, e.count) == Pages(es[a..b]) + more
    ensures Pages(Splice(es, a, b, [e])) == Pages(es) + more
  {
    hide *;
    SplicePages(es, a, b, [e]);
    PagesOne(e);
  }

  lemma PairPages(es: seq<Extent>, k: nat)
    requires 0 < k <= |es|
    ensures Pages(es[k - 1..k]) == Interval(es[k - 1].start, es[k - 1].count)
    ensures k < |es| ==>
      Pages(es[k - 1..k + 1]) == Interval(es[k - 1].start, es[k - 1].count) + Interval(es[k].start, es[k].count)
  {
    hide Interval;
    assert es[k - 1..k] == [es[k - 1]];
    PagesOne(es[k - 1]);
    if k < |es| {
      assert es[k - 1..k + 1] == [es[k - 1]] + [es[k]];
      PagesConcat([es[k - 1]], [es[k]]);
      PagesOne(es[k]);
    }
  }

  lemma UnionOrder(a: set<nat>, b: set<nat>, c: set<nat>)
    ensures a + (b + c) == a + c + b
  {
  }

  lemma BothSidesPages(es: seq<Extent>, k: nat, n: nat)
    requires 0 < k < |es| && EndOf(es[k - 1]) + n == es[k].start
    ensures Pages(Splice(es, k - 1, k + 1, [Extent(es[k - 1].start, es[k - 1].count + n + es[k].count)])) ==
      Pages(es) + Interval(EndOf(es[k - 1]), n)
  {
    hide Pages, Splice, Interval;
    var more := Interval(EndOf(es[k - 1]), n);
    PairPages(es, k);
    IntervalSplit(es[k - 1].start, es[k - 1].count, n + es[k].count);
    IntervalSplit(EndOf(es[k - 1]), n, es[k].count);
    UnionOrder(Interval(es[k - 1].start, es[k - 1].count), more, Interval(es[k].start, es[k].count));
    SpliceAdds(es, k - 1, k + 1, Extent(es[k - 1].start, es[k - 1].count + n + es[k].count), more);
  }

  lemma LeftSidePages(es: seq<Extent>, k: nat, n: nat)
    requires 0 < k <= |es|
    ensures Pages(Splice(es, k - 1, k, [Extent(es[k - 1].start, es[k - 1].count + n)])) ==
      Pages(es) + Interval(EndOf(es[k - 1]), n)
  {
    hide Pages, Splice, Interval;
    PairPages(es, k);
    IntervalSplit(es[k - 1].start, es[k - 1].count, n);
    SpliceAdds(es, k - 1, k, Extent(es[k - 1].start, es[k - 1].count + n), Interval(EndOf(es[k - 1]), n));
  }

  lemma RightSidePages(es: seq<Extent>, k: nat, start: nat, n: nat)
    requires k < |es| && start + n == es[k].start
    ensures Pages(Splice(es, k, k + 1, [Extent(start, es[k].count + n)])) == Pages(es) + Interval(start, n)
  {
    hide Pages, Splice, Interval;
    PairPages(es, k + 1);
    IntervalSplit(start, n, es[k].count);
    var more, own := Interval(start, n), Interval(es[k].start, es[k].count);
    assert more + own == own + more;
    SpliceAdds(es, k, k + 1, Extent(start, es[k].count + n), more);
  }

  lemma ApartPages(es: seq<Extent>, k: nat, start: nat, n: nat)
    requires k <= |es|
    ensures Pages(Splice(es, k, k, [Extent(start, n)])) == Pages(es) + Interval(start, n)
  {
    assert es[k..k] == [];
    assert Pages([]) == {};
    hide Pages, Splice, Interval;
    assert {} + Interval(start, n) == Interval(start, n);
    SpliceAdds(es, k, k, Extent(start, n), Interval(start, n));
  }

  lemma GiveBackPages(es: seq<Extent>, start: nat, n: nat)
    ensures Pages(GiveBack(es, start, n)) == Pages(es) + Interval(start, n)
  {
    hide Pages, Splice, Interval, Place;
    var k := Place(es, start);
    if TouchesLeft(es, start) && TouchesRight(es, start, n) {
      BothSidesPages(es, k, n);
    } else if TouchesLeft(es, start) {
      LeftSidePages(es, k, n);
    } else if TouchesRight(es, start, n) {
      RightSidePages(es, k, start, n);
    } else {
      ApartPages(es, k, start, n);
    }
  }

  lemma ReturnSizes(used: set<nat>, free: set<nat>, moved: set<nat>)
    requires free <= used && moved <= used
    ensures free * moved == {} ==> moved <= used - free
    ensures free * moved != {} ==> !(moved <= used - free)
    ensures used - (free + moved) == used - free - moved
    ensures moved <= used - free ==> |moved| <= |used - free| && |used - free - moved| == |used - free| - |moved|
  {
    var live := used - free;
    if free * moved == {} {
      forall p | p in moved
        ensures p in live
      {
        assert p !in free * moved;
      }
    }
    if moved <= live {
      assert live == (live - moved) + moved;
    }
    if free * moved != {} {
      var p :| p in free * moved;
      assert p in moved && p !in live;
    }
  }

  /** Pages held before are the only ones no longer held after. */
  ghost predicate Released(before: Pool, start: nat, n: nat, after: Pool)
  {
    && Interval(start, n) <= Live(before)
    && Live(after) == Live(before) - Interval(start, n)
    && after.allocatedPages == before.allocatedPages - n
  }

  /** A return either removes exactly its pages from the live set or changes nothing; it is
      taken exactly when the pages are live, sit in one region, and the table has a slot
      or a neighbour to merge with. */
  lemma DeallocateMeaning(pool: Pool, start: nat, n: nat)
    requires PoolOk(pool)
    ensures var (after, ok) := Deallocate(pool, start, n);
      PoolOk(after)
      && (ok ==> Released(pool, start, n, after) && after.regions == pool.regions)
      && (!ok ==> after == pool)
      && (ok <==>
            n > 0 && Inside(pool.regions, start, n) && Interval(start, n) <= Live(pool)
            && (|pool.extents| < MAX_FREE_EXTENTS
                || TouchesLeft(pool.extents, start) || TouchesRight(pool.extents, start, n)))
  {
    hide Pages, Merged, Apart, Used, Interval, Inside, Overlaps, TouchesLeft, TouchesRight, GiveBack;
    if n > 0 && Inside(pool.regions, start, n) {
      InsideIsUsed(pool.regions, start, n);
      OverlapsIsShared(pool.extents, start, n);
      IntervalSize(start, n);
      ReturnSizes(Pages(Used(pool.regions)), Pages(pool.extents), Interval(start, n));
      if !Overlaps(pool.extents, start, n) {
        GiveBackMerged(pool.extents, start, n);
        GiveBackPages(pool.extents, start, n);
      }
    }
  }

  // ----- Can every live block be returned in one call?

  /** No region begins where another ends. */
  ghost predicate Gapped(rs: seq<Region>)
  {
    forall i, j :: 0 <= i < |rs| && 0 <= j < |rs| ==> rs[i].start + rs[i].count != rs[j].start
  }

  /** Between gapped regions a run of handed-out pages lies in one region. */
  lemma {:induction false} RunsStayInside(rs: seq<Region>, start: nat, n: nat)
    requires Apart(rs) && Gapped(rs) && n > 0 && Interval(start, n) <= Pages(Used(rs))
    ensures Inside(rs, start, n)
  {
    hide Pages;
    var us := Used(rs);
    var last := start + n - 1;
    assert last in Interval(start, n);
    PagesMember(us, last);
    var j: nat :| InExtent(us, last, j);
    if n > 1 {
      assert Interval(start, n - 1) <= Interval(start, n);
      RunsStayInside(rs, start, n - 1);
      var i: nat :| i < |rs| && rs[i].start <= start && start + (n - 1) <= rs[i].start + rs[i].next;
      assert rs[i].start + rs[i].count != rs[j].start;
      assert i == j;
    }
    assert rs[j].start <= start && start + n <= rs[j].start + rs[j].next;
  }

  /** With gapped regions every live block comes back in one call while the table has room. */
  lemma LiveBlocksReturn(pool: Pool, start: nat, n: nat)
    requires PoolOk(pool) && Gapped(pool.regions) && n > 0 && |pool.extents| < MAX_FREE_EXTENTS
    ensures Deallocate(pool, start, n).1 <==> Interval(start, n) <= Live(pool)
  {
    hide Pages, Merged, Apart, Used, Interval, Inside, Deallocate, Gapped, TouchesLeft, TouchesRight;
    DeallocateMeaning(pool, start, n);
    if Interval(start, n) <= Live(pool) {
      assert Live(pool) <= Pages(Used(pool.regions));
      RunsStayInside(pool.regions, start, n);
    }
  }

  /** Two touching one-page regions, of which the first `used` pages were handed out. */
  ghost predicate Touching(rs: seq<Region>, used: nat)
  {
    |rs| == 2 && rs[0] == Region(0, 1, if used > 0 then 1 else 0) && rs[1] == Region(1, 1, if used > 1 then 1 else 0)
  }

  lemma NextPageOut(rs: seq<Region>, used: nat, count: nat)
    requires Touching(rs, used) && used < 2
    ensures var (after, got) := Allocate(Pool(rs, [], count), 1);
      Touching(after.regions, used + 1) && after.extents == [] && after.allocatedPages == count + 1 && got == Some(used)
  {
    hide FirstRegion, FirstExtent;
    var k := FirstRegion(rs, 1);
    assert k == used;
  }

  lemma PagesBack(rs: seq<Region>)
    requires Touching(rs, 2)
    ensures Deallocate(Pool(rs, [], 2), 0, 1) == (Pool(rs, [Extent(0, 1)], 1), true)
    ensures Deallocate(Pool(rs, [Extent(0, 1)], 1), 1, 1) == (Pool(rs, [Extent(0, 2)], 0), true)
  {
    hide Place;
    assert rs[0].start == 0 && rs[1].start == 1;
    assert Inside(rs, 0, 1) && Inside(rs, 1, 1);
    var es := [Extent(0, 1)];
    assert Place([], 0) == 0 && Place(es, 1) == 1;
    assert Splice([], 0, 0, es) == es;
    assert Splice(es, 0, 1, [Extent(0, 2)]) == [Extent(0, 2)];
  }

  lemma BothOut(rs: seq<Region>)
    requires Touching(rs, 2)
    ensures Allocate(Pool(rs, [Extent(0, 2)], 0), 2) == (Pool(rs, [], 2), Some(0))
    ensures !Deallocate(Pool(rs, [], 2), 0, 2).1
  {
    hide FirstExtent;
    var es := [Extent(0, 2)];
    assert es[0].count == 2;
    assert FirstExtent(es, 2) == 0;
    assert Shorten(es, 0, 2) == [];
  }

  lemma FreshPoolOk()
    ensures PoolOk(Pool([Region(0, 1, 0), Region(1, 1, 0)], [], 0))
  {
    var rs := [Region(0, 1, 0), Region(1, 1, 0)];
    assert Used(rs) == [Extent(0, 0)] + [Extent(1, 0)];
    PagesConcat([Extent(0, 0)], [Extent(1, 0)]);
    PagesOne(Extent(0, 0));
    PagesOne(Extent(1, 0));
    assert Interval(0, 0) == {} && Interval(1, 0) == {};
    assert Live(Pool(rs, [], 0)) == {};
  }

  /** Over touching regions the promise fails: two pages are handed out, returned one by one
      and merged; the two-page block then handed out cannot be returned by one call. */
  lemma SpanningBlockStaysOut()
    ensures var p0 := Pool([Region(0, 1, 0), Region(1, 1, 0)], [], 0);
      var p2 := Allocate(Allocate(p0, 1).0, 1).0;
      var p4 := Deallocate(Deallocate(p2, 0, 1).0, 1, 1).0;
      var (p5, block) := Allocate(p4, 2);
      PoolOk(p0) && PoolOk(p5) && block == Some(0) && Interval(0, 2) <= Live(p5) && !Deallocate(p5, 0, 2).1
  {
    hide Allocate, Deallocate, PoolOk, Live;
    FreshPoolOk();
    var p0 := Pool([Region(0, 1, 0), Region(1, 1, 0)], [], 0);
    NextPageOut(p0.regions, 0, 0);
    NextPageOut(Allocate(p0, 1).0.regions, 1, 1);
    PagesBack(Allocate(Allocate(p0, 1).0, 1).0.regions);
    BothOut(Allocate(Allocate(p0, 1).0, 1).0.regions);
    var p2 := Allocate(Allocate(p0, 1).0, 1).0;
    var p3 := Deallocate(p2, 0, 1).0;
    AllocateMeaning(p0, 1);
    AllocateMeaning(Allocate(p0, 1).0, 1);
    DeallocateMeaning(p2, 0, 1);
    DeallocateMeaning(p3, 1, 1);
    AllocateMeaning(Deallocate(p3, 1, 1).0, 2);
  }
}
