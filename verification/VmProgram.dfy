/** User programs: what the loader accepts, and the bytes each page must hold. */
module VmProgram {
  import opened Bytes
  import opened Wrappers
  import opened PageEntry

  const USER_CODE_BASE: nat := 0x2000_0000_0000
  const USER_STACK_TOP: nat := 0x2000_0020_0000
  const USER_PROGRAM_LIMIT: nat := 0x2000_001f_f000
  const USER_PAGES: nat := 512
  const STACK_PAGE: nat := 511

  datatype UserError =
    | AddressOverflow
    | UserProgramEmpty
    | UserProgramTooLarge
    | UserRegionConflict
    | UserMappingConflict
    | UserEntryInvalid
    | UserWritableExecutable
    | UserPageTrackingCapacity
    | ActiveAddressSpace
    | PageReclamationFailed
    | DirectMapUnavailable
    | OutOfPhysicalPages

  datatype Segment = Segment(virtualAddress: u64, data: seq<byte>, memorySize: u64, writable: bool, executable: bool)

  function PageStart(s: Segment): (a: nat)
  {
    s.virtualAddress / PAGE_SIZE * PAGE_SIZE
  }

  /** First page boundary at or behind the end of the segment. */
  function PageEnd(s: Segment): (a: nat)
  {
    (s.virtualAddress + s.memorySize + PAGE_SIZE - 1) / PAGE_SIZE * PAGE_SIZE
  }

  predicate PagesOverlap(s: Segment, t: Segment)
  {
    PageStart(s) < PageEnd(t) && PageStart(t) < PageEnd(s)
  }

  // ----- The validator, in the order it complains

  function ValidateSegment(s: Segment): (r: Outcome<UserError>)
  {
    if s.memorySize == 0 then Fail(UserProgramEmpty)
    else if s.writable && s.executable then Fail(UserWritableExecutable)
    else if |s.data| > s.memorySize then Fail(UserProgramTooLarge)
    else if s.virtualAddress + s.memorySize >= U64_LIMIT then Fail(AddressOverflow)
    else if s.virtualAddress < USER_CODE_BASE || s.virtualAddress + s.memorySize > USER_PROGRAM_LIMIT then
      Fail(UserRegionConflict)
    else if PageStart(s) < USER_CODE_BASE || PageEnd(s) > USER_PROGRAM_LIMIT then Fail(UserRegionConflict)
    else Pass
  }

  predicate ClearOf(segments: seq<Segment>, i: nat)
    requires i < |segments|
  {
    forall j :: 0 <= j < i ==> !PagesOverlap(segments[i], segments[j])
  }

  predicate EntryIn(entry: u64, s: Segment)
  {
    s.executable && s.virtualAddress <= entry < s.virtualAddress + |s.data|
  }

  function ValidateFrom(entry: u64, segments: seq<Segment>, i: nat, entryFound: bool): (r: Outcome<UserError>)
    requires i <= |segments|
    ensures r.Fail? ==> r.error != PageReclamationFailed
    decreases |segments| - i
  {
    if i == |segments| then if entryFound then Pass else Fail(UserEntryInvalid)
    else
      var r := ValidateSegment(segments[i]);
      if r.Fail? then r
      else if !ClearOf(segments, i) then Fail(UserMappingConflict)
      else ValidateFrom(entry, segments, i + 1, entryFound || EntryIn(entry, segments[i]))
  }

  function ValidateProgram(entry: u64, segments: seq<Segment>): (r: Outcome<UserError>)
    ensures r.Fail? ==> r.error != PageReclamationFailed
  {
    if segments == [] then Fail(UserProgramEmpty) else ValidateFrom(entry, segments, 0, false)
  }

  // ----- What acceptance means

  /** Segments inside the user region below the stack page, never writable and
      executable, page-disjoint, with an entry point in file-backed code. */
  ghost predicate GoodSegment(s: Segment)
  {
    && s.memorySize > 0 && |s.data| <= s.memorySize
    && !(s.writable && s.executable)
    && USER_CODE_BASE <= s.virtualAddress && s.virtualAddress + s.memorySize <= USER_PROGRAM_LIMIT
  }

  ghost predicate GoodProgram(entry: u64, segments: seq<Segment>)
  {
    && (forall i :: 0 <= i < |segments| ==> GoodSegment(segments[i]))
    && (forall i, j :: 0 <= j < i < |segments| ==> !PagesOverlap(segments[i], segments[j]))
    && (exists i :: 0 <= i < |segments| && EntryIn(entry, segments[i]))
  }

  lemma ValidateSegmentMeaning(s: Segment)
    ensures ValidateSegment(s).Pass? <==> GoodSegment(s)
  {
  }

  lemma {:induction false} ValidateFromMeaning(entry: u64, segments: seq<Segment>, i: nat, found: bool)
    requires i <= |segments|
    ensures ValidateFrom(entry, segments, i, found).Pass? <==>
      && (forall k :: i <= k < |segments| ==> GoodSegment(segments[k]) && ClearOf(segments, k))
      && (found || exists k :: i <= k < |segments| && EntryIn(entry, segments[k]))
    decreases |segments| - i
  {
    hide GoodSegment, ValidateSegment, PagesOverlap;
    if i < |segments| {
      ValidateSegmentMeaning(segments[i]);
      ValidateFromMeaning(entry, segments, i + 1, found || EntryIn(entry, segments[i]));
    }
  }

  /** The validator accepts exactly the good programs. */
  lemma ValidateMeaning(entry: u64, segments: seq<Segment>)
    ensures ValidateProgram(entry, segments).Pass? <==> GoodProgram(entry, segments)
  {
    hide GoodSegment, PagesOverlap;
    ValidateFromMeaning(entry, segments, 0, false);
    if GoodProgram(entry, segments) {
      assert forall k :: 0 <= k < |segments| ==> ClearOf(segments, k);
    }
  }

  /** What is wrong with the segment a report is about. */
  ghost predicate Defect(segments: seq<Segment>, k: nat, e: UserError)
    requires k < |segments|
  {
    var s := segments[k];
    match e
    case UserProgramEmpty => s.memorySize == 0
    case UserWritableExecutable => s.writable && s.executable
    case UserProgramTooLarge => |s.data| > s.memorySize
    case AddressOverflow => s.virtualAddress + s.memorySize >= U64_LIMIT
    case UserRegionConflict => s.virtualAddress < USER_CODE_BASE || s.virtualAddress + s.memorySize > USER_PROGRAM_LIMIT
    case UserMappingConflict => GoodSegment(s) && exists j :: 0 <= j < k && PagesOverlap(s, segments[j])
    case _ => false
  }

  lemma SegmentReport(segments: seq<Segment>, k: nat)
    requires k < |segments| && ValidateSegment(segments[k]).Fail?
    ensures Defect(segments, k, ValidateSegment(segments[k]).error)
    ensures ValidateSegment(segments[k]).error != UserEntryInvalid
  {
  }

  lemma {:induction false} ReportFrom(entry: u64, segments: seq<Segment>, i: nat, found: bool)
    requires i <= |segments|
    ensures var r := ValidateFrom(entry, segments, i, found);
      && (r.Fail? && r.error != UserEntryInvalid ==>
            exists k :: i <= k < |segments| && Defect(segments, k, r.error)
                        && forall j :: i <= j < k ==> GoodSegment(segments[j]) && ClearOf(segments, j))
      && (r == Fail(UserEntryInvalid) ==>
            forall k :: i <= k < |segments| ==> GoodSegment(segments[k]) && ClearOf(segments, k))
    decreases |segments| - i
  {
    hide GoodSegment, ValidateSegment, PagesOverlap;
    if i < |segments| {
      ValidateSegmentMeaning(segments[i]);
      if ValidateSegment(segments[i]).Fail? {
        SegmentReport(segments, i);
      } else if ClearOf(segments, i) {
        ReportFrom(entry, segments, i + 1, found || EntryIn(entry, segments[i]));
      } else {
        assert Defect(segments, i, UserMappingConflict);
      }
    }
  }

  /** A refusal names the first segment's defect, or the entry point when all segments are in order. */
  lemma ReportIsTrue(entry: u64, segments: seq<Segment>)
    requires !GoodProgram(entry, segments)
    ensures var r := ValidateProgram(entry, segments);
      && r.Fail?
      && (segments == [] ==> r == Fail(UserProgramEmpty))
      && (segments != [] ==>
            (r == Fail(UserEntryInvalid) <==>
               forall k :: 0 <= k < |segments| ==> GoodSegment(segments[k]) && ClearOf(segments, k)))
      && (segments != [] && r != Fail(UserEntryInvalid) ==>
            exists k :: 0 <= k < |segments| && Defect(segments, k, r.error)
                        && forall j :: 0 <= j < k ==> GoodSegment(segments[j]) && ClearOf(segments, j))
  {
    hide GoodSegment, PagesOverlap, ValidateFrom, Defect, ClearOf;
    ValidateMeaning(entry, segments);
    if segments != [] {
      ReportFrom(entry, segments, 0, false);
      DefectIsBad(segments);
    }
  }

  lemma DefectIsBad(segments: seq<Segment>)
    ensures forall k, e :: 0 <= k < |segments| && Defect(segments, k, e) ==>
      !(GoodSegment(segments[k]) && ClearOf(segments, k))
  {
  }

  // ----- Pages of the user region

  function PageVirt(p: nat): (a: u64)
    requires p < USER_PAGES
  {
    USER_CODE_BASE + p * PAGE_SIZE
  }

  /** The user region is covered by one last-level table. */
  lemma UserIndices(p: nat, a: u64)
    requires p < USER_PAGES && PageVirt(p) <= a < PageVirt(p) + PAGE_SIZE
    ensures L4Index(a) == 64 && L3Index(a) == 0 && L2Index(a) == 0 && L1Index(a) == p
  {
    assert a / PAGE_SIZE == 0x2_0000_0000 + p;
    assert (0x2_0000_0000 + p) / 512 == 0x100_0000;
  }

  predicate Covers(s: Segment, p: nat)
    requires p < USER_PAGES
  {
    PageStart(s) <= PageVirt(p) < PageEnd(s)
  }

  /** The byte a program expects at an address of the segment's pages. */
  function ByteAt(s: Segment, a: nat): (b: byte)
  {
    if s.virtualAddress <= a < s.virtualAddress + |s.data| then s.data[a - s.virtualAddress] else 0
  }

  function PageImage(s: Segment, pageVirt: nat): (page: seq<byte>)
    ensures |page| == PAGE_SIZE
    ensures forall i :: 0 <= i < PAGE_SIZE ==> page[i] == ByteAt(s, pageVirt + i)
  {
    seq<byte>(PAGE_SIZE, i requires 0 <= i < PAGE_SIZE => ByteAt(s, pageVirt + i))
  }

  /** Copying the segment's bytes into a zeroed page gives the page's image. */
  lemma CopyIsImage(s: Segment, pageVirt: nat)
    ensures var from := if pageVirt > s.virtualAddress then pageVirt else s.virtualAddress;
      var dataEnd := s.virtualAddress + |s.data|;
      var to := if pageVirt + PAGE_SIZE < dataEnd then pageVirt + PAGE_SIZE else dataEnd;
      PageImage(s, pageVirt) == if from < to
        then Put(Zeros(PAGE_SIZE), from - pageVirt, s.data[from - s.virtualAddress..to - s.virtualAddress])
        else Zeros(PAGE_SIZE)
  {
    var from := if pageVirt > s.virtualAddress then pageVirt else s.virtualAddress;
    var dataEnd := s.virtualAddress + |s.data|;
    var to := if pageVirt + PAGE_SIZE < dataEnd then pageVirt + PAGE_SIZE else dataEnd;
    if from < to {
      var copied := Put(Zeros(PAGE_SIZE), from - pageVirt, s.data[from - s.virtualAddress..to - s.virtualAddress]);
      forall i | 0 <= i < PAGE_SIZE
        ensures PageImage(s, pageVirt)[i] == copied[i]
      {
      }
    } else {
      forall i | 0 <= i < PAGE_SIZE
        ensures PageImage(s, pageVirt)[i] == 0
      {
      }
    }
  }
}
