/** Which pages the allocator manages: the memory map's usable regions, cut around the
    reserved ranges. Spans are byte ranges `[start, end)` of the 64-bit address space. */
module PageRegions {
  import opened Arith
  import opened PagePool

  const PAGE: nat := 4096
  const TOP: nat := 0xFFFF_FFFF_FFFF_FFFF
  const MAX_MEMORY_REGIONS: nat := 128
  const MAX_RESERVED: nat := 16
  const MAX_REGIONS: nat := MAX_MEMORY_REGIONS + MAX_RESERVED + 8

  datatype Span = Span(start: nat, end: nat)

  datatype Reserved = Reserved(start: nat, length: nat)

  /** An entry of the memory map; `usable` is the firmware mode's verdict on its kind. */
  datatype MemoryRegion = MemoryRegion(start: nat, pageCount: nat, usable: bool)

  function Clamp(x: nat): nat
  {
    if x > TOP then TOP else x
  }

  function AlignDown(x: nat): nat
  {
    x / PAGE * PAGE
  }

  function AlignUp(x: nat): nat
  {
    AlignDown(Clamp(x + (PAGE - 1)))
  }

  /** The reserved range rounded outwards to whole pages. */
  function Hole(r: Reserved): Span
  {
    Span(AlignDown(r.start), AlignUp(Clamp(r.start + r.length)))
  }

  predicate Skipped(r: Reserved)
  {
    r.length == 0 || Hole(r).end <= Hole(r).start
  }

  function SpanOf(m: MemoryRegion): Span
  {
    Span(m.start, Clamp(m.start + Clamp(m.pageCount * PAGE)))
  }

  // ----- Cutting

  function Cut(s: Span, hole: Span): seq<Span>
  {
    var from := if s.start < hole.start then hole.start else s.start;
    var to := if s.end < hole.end then s.end else hole.end;
    if s.end <= s.start then []
    else if to <= from then [s]
    else (if s.start < from then [Span(s.start, from)] else []) + (if to < s.end then [Span(to, s.end)] else [])
  }

  function CutAll(spans: seq<Span>, hole: Span): seq<Span>
  {
    if spans == [] then [] else CutAll(spans[..|spans| - 1], hole) + Cut(spans[|spans| - 1], hole)
  }

  /** What is left of `s` once every reserved range is cut out. */
  function Fragments(s: Span, rs: seq<Reserved>): seq<Span>
  {
    if rs == [] then [s]
    else
      var before := Fragments(s, rs[..|rs| - 1]);
      var r := rs[|rs| - 1];
      if Skipped(r) then before else CutAll(before, Hole(r))
  }

  /** The whole pages of a span, as a region nobody has used yet. */
  function PagesOf(s: Span): seq<Region>
  {
    var start, end := AlignUp(s.start), AlignDown(s.end);
    if end <= start then [] else [Region(start / PAGE, (end - start) / PAGE, 0)]
  }

  function RegionsOf(spans: seq<Span>): seq<Region>
  {
    if spans == [] then [] else RegionsOf(spans[..|spans| - 1]) + PagesOf(spans[|spans| - 1])
  }

  predicate Counted(m: MemoryRegion)
  {
    m.usable && m.pageCount > 0
  }

  /** The fragments of one map entry. */
  function Pieces(m: MemoryRegion, rs: seq<Reserved>): seq<Region>
  {
    if Counted(m) then RegionsOf(Fragments(SpanOf(m), rs)) else []
  }

  /** Every region of the memory map, in order, cut around the reserved ranges. */
  function Table(regions: seq<MemoryRegion>, rs: seq<Reserved>): seq<Region>
  {
    if regions == [] then []
    else
      var m := regions[|regions| - 1];
      Table(regions[..|regions| - 1], rs) + Pieces(m, rs)
  }

  // ----- Exactly the unreserved pages

  ghost predicate PageIn(s: Span, p: nat)
  {
    s.start <= p * PAGE && (p + 1) * PAGE <= s.end
  }

  ghost predicate Aligned(s: Span)
  {
    s.start % PAGE == 0 && s.end % PAGE == 0
  }

  ghost predicate PageInSome(spans: seq<Span>, p: nat)
  {
    exists i :: 0 <= i < |spans| && PageIn(spans[i], p)
  }

  ghost predicate Hits(hole: Span, p: nat)
  {
    hole.start < (p + 1) * PAGE && p * PAGE < hole.end
  }

  lemma PageInSomeConcat(a: seq<Span>, b: seq<Span>, p: nat)
    ensures PageInSome(a + b, p) <==> PageInSome(a, p) || PageInSome(b, p)
  {
    hide PageIn;
    if PageInSome(a, p) {
      var i :| 0 <= i < |a| && PageIn(a[i], p);
      assert (a + b)[i] == a[i];
    }
    if PageInSome(b, p) {
      var i :| 0 <= i < |b| && PageIn(b[i], p);
      assert (a + b)[|a| + i] == b[i];
    }
  }

  /** An aligned hole lies wholly before the page, wholly behind it, or covers it. */
  lemma HoleAndPage(hole: Span, p: nat)
    requires Aligned(hole)
    ensures hole.end <= p * PAGE || hole.end >= (p + 1) * PAGE
    ensures hole.start <= p * PAGE || hole.start >= (p + 1) * PAGE
  {
    assert hole.end == hole.end / PAGE * PAGE;
    assert hole.start == hole.start / PAGE * PAGE;
  }

  lemma CutPages(s: Span, hole: Span, p: nat)
    requires Aligned(hole) && hole.start < hole.end
    ensures PageInSome(Cut(s, hole), p) <==> PageIn(s, p) && !Hits(hole, p)
  {
    HoleAndPage(hole, p);
    hide Aligned;
    var c := Cut(s, hole);
    if |c| > 0 {
      assert c[0] in c;
    }
    if |c| > 1 {
      assert c[1] in c;
    }
    if PageIn(s, p) && !Hits(hole, p) {
      assert exists i :: 0 <= i < |c| && PageIn(c[i], p) by {
        if hole.end <= p * PAGE {
          assert PageIn(c[|c| - 1], p);
        } else {
          assert PageIn(c[0], p);
        }
      }
    }
  }

  lemma {:induction false} CutAllPages(spans: seq<Span>, hole: Span, p: nat)
    requires Aligned(hole) && hole.start < hole.end
    ensures PageInSome(CutAll(spans, hole), p) <==> PageInSome(spans, p) && !Hits(hole, p)
  {
    hide Aligned, PageIn, Hits, Cut;
    if spans != [] {
      var last := |spans| - 1;
      var front := spans[..last];
      CutAllPages(front, hole, p);
      CutPages(spans[last], hole, p);
      PageInSomeConcat(CutAll(front, hole), Cut(spans[last], hole), p);
      PageInSomeConcat(front, [spans[last]], p);
      assert spans == front + [spans[last]];
      assert PageInSome([spans[last]], p) <==> PageIn(spans[last], p) by {
        assert [spans[last]][0] == spans[last];
      }
    }
  }

  lemma HoleAligned(r: Reserved)
    ensures Aligned(Hole(r))
  {
  }

  ghost predicate Reserves(rs: seq<Reserved>, p: nat)
  {
    exists i :: 0 <= i < |rs| && !Skipped(rs[i]) && Hits(Hole(rs[i]), p)
  }

  lemma {:induction false} FragmentPages(s: Span, rs: seq<Reserved>, p: nat)
    ensures PageInSome(Fragments(s, rs), p) <==> PageIn(s, p) && !Reserves(rs, p)
  {
    hide Aligned, PageIn, Hits, CutAll, Hole;
    if rs == [] {
      assert [s][0] == s;
    } else {
      var last := |rs| - 1;
      var front := rs[..last];
      FragmentPages(s, front, p);
      assert Reserves(rs, p) <==> Reserves(front, p) || (!Skipped(rs[last]) && Hits(Hole(rs[last]), p)) by {
        if Reserves(front, p) {
          var i :| 0 <= i < |front| && !Skipped(front[i]) && Hits(Hole(front[i]), p);
          assert rs[i] == front[i];
        }
        if Reserves(rs, p) {
          var i :| 0 <= i < |rs| && !Skipped(rs[i]) && Hits(Hole(rs[i]), p);
          assert i < last ==> front[i] == rs[i];
        }
      }
      if !Skipped(rs[last]) {
        HoleAligned(rs[last]);
        CutAllPages(Fragments(s, front), Hole(rs[last]), p);
      }
    }
  }

  /** Some byte of the reserved range, taken without rounding or saturation, lies in the page. */
  ghost predicate TouchesPage(r: Reserved, p: nat)
  {
    r.length > 0 && r.start < (p + 1) * PAGE && p * PAGE < r.start + r.length
  }

  /** Rounding and saturation never change which pages below the top one are touched. */
  lemma HoleIsTouch(r: Reserved, p: nat)
    requires r.start <= TOP && (p + 1) * PAGE <= TOP
    ensures !Skipped(r) && Hits(Hole(r), p) <==> TouchesPage(r, p)
  {
    var end := Clamp(r.start + r.length);
    var up := Clamp(end + (PAGE - 1));
    assert r.start == r.start / PAGE * PAGE + r.start % PAGE;
    assert up == up / PAGE * PAGE + up % PAGE;
    assert TOP == TOP / PAGE * PAGE + (PAGE - 1);
  }

  // ----- How many fragments there can be

  ghost predicate Ordered(spans: seq<Span>)
  {
    && (forall i :: 0 <= i < |spans| ==> spans[i].start <= spans[i].end)
    && (forall i, j :: 0 <= i < j < |spans| ==> spans[i].end <= spans[j].start)
  }

  ghost predicate Contained(spans: seq<Span>, s: Span)
  {
    forall i :: 0 <= i < |spans| ==> s.start <= spans[i].start && spans[i].end <= s.end
  }

  predicate StrictlyInside(hole: Span, s: Span)
  {
    s.start < hole.start && hole.end < s.end
  }

  lemma OrderedConcat(a: seq<Span>, b: seq<Span>, middle: nat, s: Span)
    requires Ordered(a) && Ordered(b)
    requires Contained(a, Span(s.start, middle)) && Contained(b, Span(middle, s.end))
    requires s.start <= middle <= s.end
    ensures Ordered(a + b) && Contained(a + b, s)
  {
    var c := a + b;
    assert forall i :: 0 <= i < |c| ==> c[i] == if i < |a| then a[i] else b[i - |a|];
  }

  lemma CutOrdered(s: Span, hole: Span)
    requires s.start <= s.end && hole.start < hole.end
    ensures Ordered(Cut(s, hole)) && Contained(Cut(s, hole), s)
    ensures |Cut(s, hole)| <= if StrictlyInside(hole, s) then 2 else 1
  {
  }

  ghost predicate SplitsSome(spans: seq<Span>, hole: Span)
  {
    exists i :: 0 <= i < |spans| && StrictlyInside(hole, spans[i])
  }

  /** A hole splits at most one of several spans in order. */
  lemma {:induction false} CutAllOrdered(spans: seq<Span>, hole: Span, s: Span)
    requires Ordered(spans) && Contained(spans, s) && s.start <= s.end && hole.start < hole.end
    ensures Ordered(CutAll(spans, hole)) && Contained(CutAll(spans, hole), s)
    ensures |CutAll(spans, hole)| <= |spans| + if SplitsSome(spans, hole) then 1 else 0
  {
    if spans != [] {
      var last := |spans| - 1;
      var front := spans[..last];
      var middle := spans[last].start;
      CutAllOrdered(front, hole, Span(s.start, middle));
      CutOrdered(spans[last], hole);
      hide Cut;
      assert Contained(Cut(spans[last], hole), Span(middle, s.end));
      hide Ordered, Contained;
      OrderedConcat(CutAll(front, hole), Cut(spans[last], hole), middle, s);
      if SplitsSome(front, hole) {
        var i :| 0 <= i < |front| && StrictlyInside(hole, front[i]);
        assert StrictlyInside(hole, spans[i]);
        SplitsOne(spans, hole, i, last);
      }
    }
  }

  lemma SplitsOne(spans: seq<Span>, hole: Span, i: nat, j: nat)
    requires Ordered(spans) && i < j < |spans| && StrictlyInside(hole, spans[i]) && hole.start < hole.end
    ensures !StrictlyInside(hole, spans[j])
  {
  }

  /** The reserved ranges with both ends strictly inside the span. */
  function InnerHoles(s: Span, rs: seq<Reserved>): (n: nat)
    ensures n <= |rs|
  {
    if rs == [] then 0
    else
      var r := rs[|rs| - 1];
      InnerHoles(s, rs[..|rs| - 1]) + if !Skipped(r) && StrictlyInside(Hole(r), s) then 1 else 0
  }

  lemma {:induction false} FragmentCount(s: Span, rs: seq<Reserved>)
    requires s.start <= s.end
    ensures Ordered(Fragments(s, rs)) && Contained(Fragments(s, rs), s)
    ensures |Fragments(s, rs)| <= 1 + InnerHoles(s, rs)
  {
    hide Hole, CutAll;
    if rs != [] {
      var last := |rs| - 1;
      FragmentCount(s, rs[..last]);
      if !Skipped(rs[last]) {
        var before := Fragments(s, rs[..last]);
        assert SplitsSome(before, Hole(rs[last])) ==> StrictlyInside(Hole(rs[last]), s);
        hide Ordered, Contained;
        CutAllOrdered(before, Hole(rs[last]), s);
      }
    }
  }

  // ----- The whole table

  ghost predicate InTable(rs: seq<Region>, p: nat)
  {
    exists i :: 0 <= i < |rs| && rs[i].start <= p < rs[i].start + rs[i].count
  }

  lemma InTableConcat(a: seq<Region>, b: seq<Region>, p: nat)
    ensures InTable(a + b, p) <==> InTable(a, p) || InTable(b, p)
  {
    var c := a + b;
    if InTable(a, p) {
      var i :| 0 <= i < |a| && a[i].start <= p < a[i].start + a[i].count;
      assert c[i] == a[i];
    }
    if InTable(b, p) {
      var i :| 0 <= i < |b| && b[i].start <= p < b[i].start + b[i].count;
      assert c[|a| + i] == b[i];
    }
  }

  /** The region lies in the byte range, and no page of it was handed out. */
  ghost predicate RegionWithin(r: Region, s: Span)
  {
    s.start <= r.start * PAGE && (r.start + r.count) * PAGE <= s.end && r.next == 0
  }

  lemma AlignsPages(s: Span, p: nat)
    requires s.end <= TOP
    ensures AlignUp(s.start) < AlignDown(s.end) ==>
      && s.start <= AlignUp(s.start) && AlignDown(s.end) <= s.end
      && AlignDown(s.end) == AlignUp(s.start) + (AlignDown(s.end) - AlignUp(s.start)) / PAGE * PAGE
    ensures PageIn(s, p) <==> AlignUp(s.start) <= p * PAGE && (p + 1) * PAGE <= AlignDown(s.end)
  {
    var up := Clamp(s.start + (PAGE - 1));
    assert up == up / PAGE * PAGE + up % PAGE;
    assert s.end == s.end / PAGE * PAGE + s.end % PAGE;
    assert TOP == TOP / PAGE * PAGE + (PAGE - 1);
  }

  lemma PagesOfMeaning(s: Span, p: nat)
    requires s.end <= TOP
    ensures InTable(PagesOf(s), p) <==> PageIn(s, p)
    ensures |PagesOf(s)| <= 1
    ensures forall i :: 0 <= i < |PagesOf(s)| ==> RegionWithin(PagesOf(s)[i], s) && PagesOf(s)[i].count > 0
  {
    AlignsPages(s, p);
    var a, b := s.start, s.end;
    var from, to := Clamp(a + (PAGE - 1)) / PAGE, b / PAGE;
    assert AlignUp(a) == from * PAGE && AlignDown(b) == to * PAGE;
    DivModUnique(AlignUp(a), PAGE, from, 0);
    hide AlignUp, AlignDown, Clamp;
    if from < to {
      assert AlignDown(b) - AlignUp(a) == (to - from) * PAGE;
      DivModUnique((to - from) * PAGE, PAGE, to - from, 0);
      assert PagesOf(s) == [Region(from, to - from, 0)];
      assert InTable(PagesOf(s), p) <==> from <= p < to by {
        assert PagesOf(s)[0] == Region(from, to - from, 0);
      }
    } else {
      assert PagesOf(s) == [];
    }
  }

  ghost predicate AllWithin(rs: seq<Region>, s: Span)
  {
    forall i :: 0 <= i < |rs| ==> RegionWithin(rs[i], s) && rs[i].count > 0
  }

  lemma WithinApart(a: Region, s: Span, b: Region, t: Span)
    requires RegionWithin(a, s) && RegionWithin(b, t) && s.end <= t.start
    ensures a.start + a.count <= b.start
  {
  }

  /** Regions of byte ranges that do not meet stay apart when listed together. */
  lemma ApartConcat(a: seq<Region>, s: Span, b: seq<Region>, t: Span)
    requires Apart(a) && Apart(b) && AllWithin(a, s) && AllWithin(b, t) && (s.end <= t.start || t.end <= s.start)
    ensures Apart(a + b)
  {
    hide RegionWithin;
    var c := a + b;
    forall i, j | 0 <= i < j < |c|
      ensures c[i].start + c[i].count <= c[j].start || c[j].start + c[j].count <= c[i].start
    {
      if i < |a| <= j {
        if s.end <= t.start {
          WithinApart(a[i], s, b[j - |a|], t);
        } else {
          WithinApart(b[j - |a|], t, a[i], s);
        }
      }
    }
  }

  lemma AllWithinConcat(a: seq<Region>, b: seq<Region>, s: Span)
    requires AllWithin(a, s) && AllWithin(b, s)
    ensures AllWithin(a + b, s)
  {
    hide RegionWithin;
  }

  lemma AllWithinWider(a: seq<Region>, s: Span, t: Span)
    requires AllWithin(a, s) && t.start <= s.start && s.end <= t.end
    ensures AllWithin(a, t)
  {
  }

  lemma FrontOrdered(spans: seq<Span>, s: Span)
    requires Ordered(spans) && Contained(spans, s) && spans != []
    ensures var last := spans[|spans| - 1];
      && Ordered(spans[..|spans| - 1]) && Contained(spans[..|spans| - 1], Span(s.start, last.start))
      && s.start <= last.start <= last.end <= s.end
  {
  }

  lemma {:induction false} RegionsOfApart(spans: seq<Span>, s: Span)
    requires Ordered(spans) && Contained(spans, s) && s.start <= s.end <= TOP
    ensures Apart(RegionsOf(spans)) && AllWithin(RegionsOf(spans), s) && |RegionsOf(spans)| <= |spans|
  {
    if spans != [] {
      var last := |spans| - 1;
      var front := spans[..last];
      var left := Span(s.start, spans[last].start);
      FrontOrdered(spans, s);
      hide PagesOf, RegionWithin, Ordered, Contained;
      RegionsOfApart(front, left);
      PagesOfMeaning(spans[last], 0);
      assert Apart(PagesOf(spans[last])) && AllWithin(PagesOf(spans[last]), spans[last]);
      AllWithinWider(PagesOf(spans[last]), spans[last], s);
      AllWithinWider(RegionsOf(front), left, s);
      hide Apart, AllWithin;
      ApartConcat(RegionsOf(front), left, PagesOf(spans[last]), spans[last]);
      AllWithinConcat(RegionsOf(front), PagesOf(spans[last]), s);
    }
  }

  lemma {:induction false} RegionsOfPages(spans: seq<Span>, s: Span, p: nat)
    requires Contained(spans, s) && s.end <= TOP
    ensures InTable(RegionsOf(spans), p) <==> PageInSome(spans, p)
  {
    hide PageIn;
    if spans != [] {
      var last := |spans| - 1;
      var front := spans[..last];
      RegionsOfPages(front, s, p);
      PagesOfMeaning(spans[last], p);
      hide PagesOf, InTable;
      InTableConcat(RegionsOf(front), PagesOf(spans[last]), p);
      PageInSomeConcat(front, [spans[last]], p);
      assert spans == front + [spans[last]];
      assert PageInSome([spans[last]], p) <==> PageIn(spans[last], p) by {
        assert [spans[last]][0] == spans[last];
      }
    }
  }

  /** What firmware promises of its memory map: addresses fit 64 bits and usable regions
      do not overlap. */
  ghost predicate DisjointMap(regions: seq<MemoryRegion>)
  {
    && (forall i :: 0 <= i < |regions| ==> regions[i].start <= TOP)
    && (forall i, j :: 0 <= i < j < |regions| && Counted(regions[i]) && Counted(regions[j]) ==>
          SpanOf(regions[i]).end <= SpanOf(regions[j]).start || SpanOf(regions[j]).end <= SpanOf(regions[i]).start)
  }

  /** Every region of the table comes from some entry of the map. */
  ghost predicate FromMap(rs: seq<Region>, regions: seq<MemoryRegion>)
  {
    forall i :: 0 <= i < |rs| ==> rs[i].count > 0 && FromEntry(rs[i], regions)
  }

  ghost predicate FromEntry(r: Region, regions: seq<MemoryRegion>)
  {
    exists k :: 0 <= k < |regions| && Counted(regions[k]) && RegionWithin(r, SpanOf(regions[k]))
  }

  lemma PiecesMeaning(m: MemoryRegion, rs: seq<Reserved>, p: nat)
    requires m.start <= TOP
    ensures Apart(Pieces(m, rs)) && AllWithin(Pieces(m, rs), SpanOf(m))
    ensures |Pieces(m, rs)| <= if Counted(m) then 1 + InnerHoles(SpanOf(m), rs) else 0
    ensures InTable(Pieces(m, rs), p) <==> Counted(m) && PageIn(SpanOf(m), p) && !Reserves(rs, p)
  {
    hide Fragments, RegionsOf, Reserves, PageIn;
    if Counted(m) {
      var s := SpanOf(m);
      FragmentCount(s, rs);
      RegionsOfApart(Fragments(s, rs), s);
      RegionsOfPages(Fragments(s, rs), s, p);
      FragmentPages(s, rs, p);
    }
  }

  lemma TableApartStep(a: seq<Region>, front: seq<MemoryRegion>, b: seq<Region>, m: MemoryRegion)
    requires Apart(a) && FromMap(a, front) && Apart(b) && AllWithin(b, SpanOf(m)) && Counted(m)
    requires DisjointMap(front + [m])
    ensures Apart(a + b) && FromMap(a + b, front + [m])
  {
    hide RegionWithin, SpanOf, Counted;
    var c := a + b;
    var whole := front + [m];
    forall i | 0 <= i < |c|
      ensures c[i].count > 0 && FromEntry(c[i], whole)
    {
      if i < |a| {
        assert FromEntry(a[i], front);
        var k :| 0 <= k < |front| && Counted(front[k]) && RegionWithin(a[i], SpanOf(front[k]));
        assert whole[k] == front[k];
      } else {
        assert whole[|front|] == m;
        assert RegionWithin(c[i], SpanOf(m));
      }
    }
    forall i, j | 0 <= i < |a| && 0 <= j < |b|
      ensures a[i].start + a[i].count <= b[j].start || b[j].start + b[j].count <= a[i].start
    {
      assert FromEntry(a[i], front);
      var k :| 0 <= k < |front| && Counted(front[k]) && RegionWithin(a[i], SpanOf(front[k]));
      assert whole[k] == front[k] && whole[|front|] == m;
      if SpanOf(front[k]).end <= SpanOf(m).start {
        WithinApart(a[i], SpanOf(front[k]), b[j], SpanOf(m));
      } else {
        WithinApart(b[j], SpanOf(m), a[i], SpanOf(front[k]));
      }
    }
    ApartAcross(a, b);
  }

  lemma ApartAcross(a: seq<Region>, b: seq<Region>)
    requires Apart(a) && Apart(b)
    requires forall i, j :: 0 <= i < |a| && 0 <= j < |b| ==>
      a[i].start + a[i].count <= b[j].start || b[j].start + b[j].count <= a[i].start
    ensures Apart(a + b)
  {
    var c := a + b;
    assert forall i :: 0 <= i < |c| ==> c[i] == if i < |a| then a[i] else b[i - |a|];
  }

  /** The table's regions never overlap. */
  lemma {:induction false} TableApart(regions: seq<MemoryRegion>, rs: seq<Reserved>)
    requires DisjointMap(regions)
    ensures Apart(Table(regions, rs)) && FromMap(Table(regions, rs), regions)
  {
    if regions != [] {
      var last := |regions| - 1;
      var front, m := regions[..last], regions[last];
      TableApart(front, rs);
      PiecesMeaning(m, rs, 0);
      assert regions == front + [m];
      hide RegionsOf, Fragments, SpanOf, RegionWithin, DisjointMap;
      var a, b := Table(front, rs), Pieces(m, rs);
      if Counted(m) {
        TableApartStep(a, front, b, m);
      } else {
        assert a + b == a;
        FromMapGrows(a, front, m);
      }
    }
  }

  lemma FromMapGrows(a: seq<Region>, front: seq<MemoryRegion>, m: MemoryRegion)
    requires FromMap(a, front)
    ensures FromMap(a, front + [m])
  {
    hide RegionWithin, SpanOf, Counted;
    forall i | 0 <= i < |a|
      ensures FromEntry(a[i], front + [m])
    {
      var k :| 0 <= k < |front| && Counted(front[k]) && RegionWithin(a[i], SpanOf(front[k]));
      assert (front + [m])[k] == front[k];
    }
  }

  ghost predicate Available(regions: seq<MemoryRegion>, p: nat)
  {
    exists k :: 0 <= k < |regions| && Counted(regions[k]) && PageIn(SpanOf(regions[k]), p)
  }

  lemma {:induction false} TablePages(regions: seq<MemoryRegion>, rs: seq<Reserved>, p: nat)
    requires forall i :: 0 <= i < |regions| ==> regions[i].start <= TOP
    ensures InTable(Table(regions, rs), p) <==> Available(regions, p) && !Reserves(rs, p)
  {
    hide Reserves, PageIn, SpanOf, Counted, RegionsOf, Fragments;
    if regions != [] {
      var last := |regions| - 1;
      var front, m := regions[..last], regions[last];
      TablePages(front, rs, p);
      PiecesMeaning(m, rs, p);
      hide InTable;
      assert Table(regions, rs) == Table(front, rs) + Pieces(m, rs);
      InTableConcat(Table(front, rs), Pieces(m, rs), p);
      assert Available(regions, p) <==> Available(front, p) || (Counted(m) && PageIn(SpanOf(m), p)) by {
        if Available(front, p) {
          var k :| 0 <= k < |front| && Counted(front[k]) && PageIn(SpanOf(front[k]), p);
          assert regions[k] == front[k];
        }
        if Available(regions, p) {
          var k :| 0 <= k < |regions| && Counted(regions[k]) && PageIn(SpanOf(regions[k]), p);
          assert k < last ==> front[k] == regions[k];
        }
      }
    }
  }

  /** The managed pages are exactly the whole pages of usable regions that no reserved
      range touches. */
  lemma ExactlyUnreserved(regions: seq<MemoryRegion>, rs: seq<Reserved>, p: nat)
    requires forall i :: 0 <= i < |regions| ==> regions[i].start <= TOP
    requires forall i :: 0 <= i < |rs| ==> rs[i].start <= TOP
    ensures InTable(Table(regions, rs), p) <==>
      Available(regions, p) && (forall i :: 0 <= i < |rs| ==> !TouchesPage(rs[i], p))
  {
    hide InTable, Table, Hole, Hits, Skipped, TouchesPage;
    TablePages(regions, rs, p);
    if Available(regions, p) {
      assert (p + 1) * PAGE <= TOP;
      forall i | 0 <= i < |rs|
        ensures !Skipped(rs[i]) && Hits(Hole(rs[i]), p) <==> TouchesPage(rs[i], p)
      {
        HoleIsTouch(rs[i], p);
      }
    }
  }

  // ----- No fragment is dropped

  function InnerTotal(regions: seq<MemoryRegion>, rs: seq<Reserved>): nat
  {
    if regions == [] then 0
    else
      var m := regions[|regions| - 1];
      InnerTotal(regions[..|regions| - 1], rs) + if Counted(m) then InnerHoles(SpanOf(m), rs) else 0
  }

  /** How many entries of the map have the hole strictly inside. */
  function Hosts(regions: seq<MemoryRegion>, r: Reserved): nat
  {
    if regions == [] then 0
    else
      var m := regions[|regions| - 1];
      Hosts(regions[..|regions| - 1], r)
      + if Counted(m) && !Skipped(r) && StrictlyInside(Hole(r), SpanOf(m)) then 1 else 0
  }

  lemma {:induction false} InnerTotalStep(regions: seq<MemoryRegion>, rs: seq<Reserved>)
    requires rs != []
    ensures InnerTotal(regions, rs) == InnerTotal(regions, rs[..|rs| - 1]) + Hosts(regions, rs[|rs| - 1])
  {
    if regions != [] {
      InnerTotalStep(regions[..|regions| - 1], rs);
    }
  }

  lemma DisjointFront(regions: seq<MemoryRegion>)
    requires DisjointMap(regions) && regions != []
    ensures DisjointMap(regions[..|regions| - 1])
  {
  }

  lemma {:induction false} OneHost(regions: seq<MemoryRegion>, r: Reserved)
    requires DisjointMap(regions)
    ensures Hosts(regions, r) <= 1
    ensures Hosts(regions, r) == 0 || exists k ::
      0 <= k < |regions| && Counted(regions[k]) && !Skipped(r) && StrictlyInside(Hole(r), SpanOf(regions[k]))
  {
    hide SpanOf, Hole;
    if regions != [] {
      var last := |regions| - 1;
      var front, m := regions[..last], regions[last];
      DisjointFront(regions);
      OneHost(front, r);
      if Hosts(front, r) == 1 {
        var k :| 0 <= k < |front| && Counted(front[k]) && !Skipped(r) && StrictlyInside(Hole(r), SpanOf(front[k]));
        assert regions[k] == front[k];
      }
    }
  }

  lemma {:induction false} InnerTotalBound(regions: seq<MemoryRegion>, rs: seq<Reserved>)
    requires DisjointMap(regions)
    ensures InnerTotal(regions, rs) <= |rs|
  {
    if rs == [] {
      NoInner(regions);
    } else {
      InnerTotalBound(regions, rs[..|rs| - 1]);
      InnerTotalStep(regions, rs);
      OneHost(regions, rs[|rs| - 1]);
    }
  }

  lemma {:induction false} NoInner(regions: seq<MemoryRegion>)
    ensures InnerTotal(regions, []) == 0
  {
    if regions != [] {
      NoInner(regions[..|regions| - 1]);
    }
  }

  lemma {:induction false} TableLength(regions: seq<MemoryRegion>, rs: seq<Reserved>)
    requires forall i :: 0 <= i < |regions| ==> regions[i].start <= TOP
    ensures |Table(regions, rs)| <= |regions| + InnerTotal(regions, rs)
  {
    if regions != [] {
      var last := |regions| - 1;
      TableLength(regions[..last], rs);
      PiecesMeaning(regions[last], rs, 0);
    }
  }

  /** Every fragment fits: the region table never drops one. */
  lemma TableFits(regions: seq<MemoryRegion>, rs: seq<Reserved>)
    requires DisjointMap(regions) && |regions| <= MAX_MEMORY_REGIONS && |rs| <= MAX_RESERVED
    ensures |Table(regions, rs)| <= MAX_REGIONS
  {
    InnerTotalBound(regions, rs);
    TableLength(regions, rs);
  }
}
