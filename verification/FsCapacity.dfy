/** When a commit is accepted and why it is refused. */
module FsCapacity {
  import opened Bytes
  import opened Wrappers
  import opened FsPath
  import opened FsTree
  import opened FsRecord
  import opened FsSuperblock
  import opened FsCommit
  import opened FsCrash
  import Crc32

  /** The tree keeps its promises and its record fits into a slot. */
  ghost predicate Fits(mem: Mem, files: seq<Entry>)
  {
    && |files| <= MAX_FILES && GoodTree(files)
    && RecordLength(files) <= MAX_RECORD_BYTES && RecordLength(files) / SECTOR_SIZE <= mem.span
  }

  /** The next generation is the last one, and its own slot holds the active record. */
  ghost predicate LastSlotTaken(mem: Mem)
  {
    mem.slots > 0 && mem.generation + 2 == U64_LIMIT && ActiveIn(mem, (mem.generation + 1) % mem.slots)
  }

  /** Everything a commit asks for. */
  ghost predicate Acceptable(mem: Mem, files: seq<Entry>)
  {
    mem.generation + 1 < U64_LIMIT && Fits(mem, files) && !LastSlotTaken(mem)
  }

  ghost predicate NotOpen(e: Entry)
  {
    e.kind == Directory && !(Writable(e.permissions) && Executable(e.permissions))
  }

  /** What is wrong with entry `e`, for each complaint about it. */
  ghost predicate Complaint(files: seq<Entry>, e: Entry, error: FsError)
  {
    match error
    case InvalidPath => !ValidPath(e.name)
    case InvalidPermissions => e.permissions >= PERMISSION_LIMIT
    case CorruptRecord => e.kind == Directory && e.data != []
    case ParentMissing => ValidPath(e.name) && Parent(e.name) != ROOT && !Contains(files, Parent(e.name))
    case NotDirectory =>
      ValidPath(e.name) && exists j :: 0 <= j < |files| && files[j].name == Parent(e.name) && files[j].kind == File
    case PermissionDenied =>
      || (e.kind == Directory && !Executable(e.permissions))
      || (ValidPath(e.name) && exists j :: 0 <= j < |files| && files[j].name == Parent(e.name) && NotOpen(files[j]))
    case _ => false
  }

  lemma EntryComplaint(files: seq<Entry>, e: Entry)
    ensures var r := ValidateEntry(files, e, true); r.Fail? ==> Complaint(files, e, r.error)
  {
    hide Utf8, ValidPath, Parent, Writable, Executable;
  }

  lemma {:induction false} TreeComplaint(files: seq<Entry>, i: nat)
    requires i <= |files| && ValidateFrom(files, true, i).Fail?
    ensures exists k :: i <= k < |files| && Complaint(files, files[k], ValidateFrom(files, true, i).error)
    decreases |files| - i
  {
    hide Complaint, ValidateEntry;
    if i < |files| {
      EntryComplaint(files, files[i]);
      if ValidateEntry(files, files[i], true).Pass? {
        TreeComplaint(files, i + 1);
      }
    }
  }

  lemma SlotIffNotTaken(image: Image, mem: Mem, sectors: u32)
    requires InStep(image, mem) && mem.slots > 0 && mem.generation + 1 < U64_LIMIT && 0 < sectors <= mem.span
    ensures |image| < U64_LIMIT
    ensures SelectFrom(mem, |image|, mem.generation + 1, sectors, 0).Ok? <==> !LastSlotTaken(mem)
  {
    hide Candidate, DecodeSuperblock, Geometry, Blank, SelectFrom, SlotStart;
    if mem.activeSectors == 0 {
      SlotAlwaysFound(mem, |image|, mem.generation + 1, sectors, 0);
    } else {
      var slot: nat :| ActiveIn(mem, slot);
      SlotAlwaysFound(mem, |image|, mem.generation + 1, sectors, slot);
      if LastSlotTaken(mem) {
        OneActiveSlot(mem, slot, (mem.generation + 1) % mem.slots);
      }
    }
  }

  lemma TakenOverflows(image: Image, mem: Mem, sectors: u32)
    requires InStep(image, mem) && mem.slots > 0 && LastSlotTaken(mem) && 0 < sectors <= mem.span
    ensures |image| < U64_LIMIT
    ensures SelectFrom(mem, |image|, mem.generation + 1, sectors, 0) == Err(ArithmeticOverflow)
  {
    hide Candidate, DecodeSuperblock, RecordSlotSpan, RecordSlotCount, Blank, SlotStart;
    SlotsPositive(image, mem);
    SlotInside(mem, |image|, (mem.generation + 1) % mem.slots);
    assert SelectFrom(mem, |image|, mem.generation + 1, sectors, 1) == Err(ArithmeticOverflow);
  }

  lemma OneActiveSlot(mem: Mem, s: nat, t: nat)
    requires ActiveIn(mem, s) && ActiveIn(mem, t)
    ensures s == t
  {
    if s < t {
      SlotOrder(s, t, mem.span);
    } else if t < s {
      SlotOrder(t, s, mem.span);
    }
  }

  /** On a mounted filesystem a commit is accepted exactly if there is a next generation, the
      tree is good and its record fits; only at the last generation may the slot be taken. Each
      refusal has its own reason. */
  lemma CommitIff(image: Image, mem: Mem, files: seq<Entry>)
    requires InStep(image, mem) && mem.slots > 0 && Distinct(files)
    ensures |image| < U64_LIMIT
    ensures var r := PlanCommit(mem, |image|, files);
      && (r.Ok? <==> Acceptable(mem, files))
      && (r == Err(TooManyFiles) <==> mem.generation + 1 < U64_LIMIT && |files| > MAX_FILES)
      && (r == Err(SnapshotTooLarge) <==>
            && mem.generation + 1 < U64_LIMIT && |files| <= MAX_FILES && GoodTree(files)
            && HEADER_BYTES + PayloadSize(files) + 511 < U64_LIMIT
            && (RecordLength(files) > MAX_RECORD_BYTES || RecordLength(files) / SECTOR_SIZE > mem.span))
      && (r == Err(ArithmeticOverflow) <==>
            || mem.generation + 1 >= U64_LIMIT
            || (|files| <= MAX_FILES && GoodTree(files) && HEADER_BYTES + PayloadSize(files) + 511 >= U64_LIMIT)
            || (Fits(mem, files) && LastSlotTaken(mem)))
      && (r.Err? && r.error !in [TooManyFiles, SnapshotTooLarge, ArithmeticOverflow] ==>
            exists k :: 0 <= k < |files| && Complaint(files, files[k], r.error))
  {
    hide ValidateTree, SelectFrom, RecordBytes, InStep, GoodTree, PayloadSize, RecordLength, Crc32.Checksum, Complaint,
      LastSlotTaken;
    SlotsPositive(image, mem);
    ValidateTreeMeaning(files);
    RecordShape(files);
    if ValidateTree(files, true).Fail? {
      TreeErrors(files);
    }
    if mem.generation + 1 < U64_LIMIT && Fits(mem, files) {
      var sectors := RecordLength(files) / SECTOR_SIZE;
      SlotIffNotTaken(image, mem, sectors);
      if LastSlotTaken(mem) {
        TakenOverflows(image, mem, sectors);
      }
    }
  }

  lemma RecordShape(files: seq<Entry>)
    ensures RecordLength(files) >= RECORD_BYTES && RecordLength(files) % SECTOR_SIZE == 0
    ensures HEADER_BYTES + PayloadSize(files) + 511 >= U64_LIMIT ==> RecordLength(files) > MAX_RECORD_BYTES
  {
    hide PayloadSize;
  }

  lemma TreeErrors(files: seq<Entry>)
    requires ValidateTree(files, true).Fail?
    ensures var e := ValidateTree(files, true).error;
      && e !in [TooManyFiles, SnapshotTooLarge, ArithmeticOverflow]
      && exists k :: 0 <= k < |files| && Complaint(files, files[k], e)
  {
    hide ValidPath, Utf8, Parent;
    TreeComplaint(files, 0);
  }
}
