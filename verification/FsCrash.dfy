/** Crash safety of CodexFS: whatever is lost of an interrupted commit, the next
    mount finds exactly the old snapshot or exactly the new one. */
module FsCrash {
  import opened Bytes
  import opened Wrappers
  import opened FsTree
  import opened FsRecord
  import opened FsSuperblock
  import opened FsCommit
  import Crc32

  // ----- The invariant between a disk image and a mounted file system

  /** Sector `s` holds no superblock of generation `generation` or later. */
  ghost predicate OlderAt(image: Image, s: nat, generation: nat)
    requires s < |image| < U64_LIMIT
  {
    var decoded := DecodeSuperblock(image[s], |image|);
    decoded.Err? || decoded.value.generation < generation
  }

  ghost predicate Agrees(snapshot: Snapshot, mem: Mem)
  {
    && snapshot.files == mem.files
    && snapshot.superblock.generation == mem.generation
    && snapshot.superblock.recordStart == mem.activeStart
    && snapshot.superblock.recordSectors == mem.activeSectors
  }

  ghost predicate Device(image: Image, mem: Mem)
  {
    && 2 <= |image| < U64_LIMIT
    && Geometry(mem, |image|)
  }

  /** The image holds the mounted snapshot in its generation's superblock sector,
      with nothing as new in the other one. */
  ghost predicate Live(image: Image, mem: Mem)
  {
    && Device(image, mem)
    && (exists slot: nat :: ActiveIn(mem, slot))
    && Candidate(image, SuperSector(mem.generation)).Some?
    && Agrees(Candidate(image, SuperSector(mem.generation)).value, mem)
    && OlderAt(image, 1 - SuperSector(mem.generation), mem.generation)
  }

  /** A device whose superblocks were never written, about to be formatted. */
  ghost predicate Unformatted(image: Image, mem: Mem)
  {
    && Device(image, mem)
    && Blank(image[0]) && Blank(image[1])
    && mem.files == [] && mem.generation == 0 && mem.activeStart == 0 && mem.activeSectors == 0
  }

  lemma BlankDecodes(image: Image, s: nat)
    requires s < |image| < U64_LIMIT && Blank(image[s])
    ensures DecodeSuperblock(image[s], |image|).Err?
  {
    hide DecodeSuperblock;
    assert image[s] == Zeros(SECTOR_SIZE);
    BlankIsNoSuperblock(|image|);
  }

  /** Mounting a live image yields the mounted snapshot. */
  lemma LiveLoads(image: Image, mem: Mem)
    requires Live(image, mem)
    ensures Load(image).Ok? && Load(image).value.Some? && Agrees(Load(image).value.value, mem)
  {
    hide DecodeSuperblock, ReadRecord, Geometry, ActiveIn, Blank;
  }

  /** Mounting an unformatted image finds nothing and formats it. */
  lemma UnformattedLoads(image: Image, mem: Mem)
    requires Unformatted(image, mem)
    ensures Load(image) == Ok(None)
  {
    hide DecodeSuperblock, ReadRecord, Geometry, Blank;
    BlankDecodes(image, 0);
    BlankDecodes(image, 1);
  }

  // ----- Writes away from the snapshot leave it alone

  ghost predicate SameOutside(a: Image, b: Image, lo: nat, hi: nat)
  {
    |a| == |b| && forall s :: 0 <= s < |a| && !(lo <= s < hi) ==> a[s] == b[s]
  }

  lemma {:induction false} SameSectors(a: Image, b: Image, start: nat, count: nat)
    requires |a| == |b| && start + count <= |a|
    requires forall s :: start <= s < start + count ==> a[s] == b[s]
    ensures ReadSectors(a, start, count) == ReadSectors(b, start, count)
  {
    if count > 0 {
      SameSectors(a, b, start, count - 1);
    }
  }

  lemma CandidateFrame(a: Image, b: Image, s: nat)
    requires |a| == |b| < U64_LIMIT && s < |a| && a[s] == b[s] && Candidate(a, s).Some?
    requires var sb := Candidate(a, s).value.superblock;
      forall i :: 0 <= i < |a| && sb.recordStart <= i < sb.recordStart + sb.recordSectors ==> a[i] == b[i]
    ensures Candidate(b, s) == Candidate(a, s)
  {
    hide DecodeSuperblock, ReadSectors, RecordContents, Crc32.Checksum;
    var sb := DecodeSuperblock(a[s], |a|).value;
    SameSectors(a, b, sb.recordStart, sb.recordSectors);
  }

  lemma LiveFrame(a: Image, b: Image, mem: Mem, lo: nat, hi: nat)
    requires Live(a, mem) && SameOutside(a, b, lo, hi) && lo >= RECORD_AREA_START
    requires lo <= hi && !RangesOverlap(lo, hi - lo, mem.activeStart, mem.activeSectors)
    ensures Live(b, mem)
  {
    hide DecodeSuperblock, Candidate, Geometry;
    var s := SuperSector(mem.generation);
    assert a[s] == b[s] && a[1 - s] == b[1 - s];
    CandidateFrame(a, b, s);
  }

  lemma UnformattedFrame(a: Image, b: Image, mem: Mem, lo: nat, hi: nat)
    requires Unformatted(a, mem) && SameOutside(a, b, lo, hi) && lo >= RECORD_AREA_START
    ensures Unformatted(b, mem)
  {
    hide Geometry, Blank;
    assert a[0] == b[0] && a[1] == b[1];
  }

  // ----- Record sectors

  lemma {:induction false} SettleRecord(image: Image, record: seq<byte>, start: nat, count: nat)
    requires count * SECTOR_SIZE <= |record| && start + count <= |image|
    ensures SameOutside(image, Settle(image, RecordWrites(record, start, count)), start, start + count)
    ensures forall i :: 0 <= i < count ==>
      Settle(image, RecordWrites(record, start, count))[start + i] == SectorOf(record, i)
  {
    if count > 0 {
      var ws := RecordWrites(record, start, count);
      SettleRecord(image, record, start, count - 1);
      assert ws[..|ws| - 1] == RecordWrites(record, start, count - 1);
    }
  }

  lemma {:induction false} ReadBack(image: Image, record: seq<byte>, start: nat, count: nat)
    requires count * SECTOR_SIZE <= |record| && start + count <= |image|
    requires forall i :: 0 <= i < count ==> image[start + i] == SectorOf(record, i)
    ensures ReadSectors(image, start, count) == record[..count * SECTOR_SIZE]
  {
    if count > 0 {
      ReadBack(image, record, start, count - 1);
      assert image[start + (count - 1)] == SectorOf(record, count - 1);
      var m := (count - 1) * SECTOR_SIZE;
      assert record[..m] + record[m..count * SECTOR_SIZE] == record[..count * SECTOR_SIZE];
    }
  }

  // ----- Where a commit has got to

  lemma {:induction false} ApplyWrites(image: Image, ws: seq<Write>, k: nat)
    requires k <= |ws|
    ensures ApplyAll(Disk(image, []), Writes(ws)[..k]) == Disk(image, ws[..k])
  {
    if k > 0 {
      ApplyWrites(image, ws, k - 1);
      var ops := Writes(ws)[..k];
      assert ops[..|ops| - 1] == Writes(ws)[..k - 1];
      assert ws[..k - 1] + [ws[k - 1]] == ws[..k];
    } else {
      assert Writes(ws)[..0] == [] && ws[..0] == [];
    }
  }

  lemma ApplyOne(d: Disk, ops: seq<Op>, op: Op)
    ensures ApplyAll(d, ops + [op]) == Apply(ApplyAll(d, ops), op)
  {
    assert (ops + [op])[..|ops + [op]| - 1] == ops;
  }

  /** The image once the record is flushed. */
  function WithRecord(image: Image, plan: Plan): (r: Image)
    requires |plan.record| == plan.superblock.recordSectors * SECTOR_SIZE
    ensures |r| == |image|
  {
    Settle(image, RecordWrites(plan.record, plan.superblock.recordStart, plan.superblock.recordSectors))
  }

  function WithSuperblock(image: Image, sb: Superblock): (r: Image)
    requires |image| >= 2
    ensures |r| == |image|
  {
    image[SuperSector(sb.generation) := SuperblockBytes(sb)]
  }

  // The disk after the first operations of a commit.

  lemma WritingRecord(image: Image, plan: Plan, k: nat)
    requires |plan.record| == plan.superblock.recordSectors * SECTOR_SIZE
    requires k <= plan.superblock.recordSectors
    ensures ApplyAll(Disk(image, []), CommitOps(plan)[..k])
      == Disk(image, RecordWrites(plan.record, plan.superblock.recordStart, plan.superblock.recordSectors)[..k])
  {
    hide RecordWrites, ApplyAll;
    var ws := RecordWrites(plan.record, plan.superblock.recordStart, plan.superblock.recordSectors);
    assert CommitOps(plan)[..k] == Writes(ws)[..k];
    ApplyWrites(image, ws, k);
  }

  lemma RecordFlushed(image: Image, plan: Plan)
    requires |plan.record| == plan.superblock.recordSectors * SECTOR_SIZE
    ensures ApplyAll(Disk(image, []), CommitOps(plan)[..plan.superblock.recordSectors + 1])
      == Disk(WithRecord(image, plan), [])
  {
    hide RecordWrites, ApplyAll, Settle;
    var m := plan.superblock.recordSectors;
    var ws := RecordWrites(plan.record, plan.superblock.recordStart, m);
    WritingRecord(image, plan, m);
    assert ws[..m] == ws;
    assert CommitOps(plan)[..m + 1] == CommitOps(plan)[..m] + [FlushOp];
    ApplyOne(Disk(image, []), CommitOps(plan)[..m], FlushOp);
  }

  lemma SuperblockWritten(image: Image, plan: Plan)
    requires |plan.record| == plan.superblock.recordSectors * SECTOR_SIZE
    ensures ApplyAll(Disk(image, []), CommitOps(plan)[..plan.superblock.recordSectors + 2])
      == Disk(WithRecord(image, plan), [SuperWrite(plan.superblock)])
  {
    hide RecordWrites, ApplyAll, Settle, WithRecord, SuperWrite;
    var m := plan.superblock.recordSectors;
    var op := WriteOp(SuperWrite(plan.superblock));
    RecordFlushed(image, plan);
    assert CommitOps(plan)[..m + 2] == CommitOps(plan)[..m + 1] + [op];
    ApplyOne(Disk(image, []), CommitOps(plan)[..m + 1], op);
  }

  lemma CommitDone(image: Image, plan: Plan)
    requires |plan.record| == plan.superblock.recordSectors * SECTOR_SIZE && |image| >= 2
    ensures ApplyAll(Disk(image, []), CommitOps(plan))
      == Disk(WithSuperblock(WithRecord(image, plan), plan.superblock), [])
  {
    hide RecordWrites, ApplyAll, Settle, WithRecord, SuperblockBytes;
    var m := plan.superblock.recordSectors;
    SuperblockWritten(image, plan);
    assert CommitOps(plan) == CommitOps(plan)[..m + 2] + [FlushOp];
    ApplyOne(Disk(image, []), CommitOps(plan)[..m + 2], FlushOp);
    SettleOne(WithRecord(image, plan), SuperWrite(plan.superblock));
  }

  lemma SettleOne(image: Image, w: Write)
    requires w.sector < |image|
    ensures Settle(image, [w]) == image[w.sector := w.data]
  {
    assert [w][..0] == [];
  }

  // ----- The new snapshot becomes live with its superblock

  lemma PlanInBounds(mem: Mem, n: u64, files: seq<Entry>)
    requires mem.slots > 0 && PlanCommit(mem, n, files).Ok?
    ensures InBounds(PlanCommit(mem, n, files).value.superblock, n)
    ensures Encodable(files)
    ensures PlanCommit(mem, n, files).value.record == RecordBytes(mem.generation + 1, files)
    ensures var plan := PlanCommit(mem, n, files).value;
      plan.superblock.recordCrc == Crc32.Checksum(plan.record)
    ensures PlanCommit(mem, n, files).value.superblock.recordSectors <= mem.span
  {
    hide ValidateTree, PayloadSize, Crc32.Checksum, RecordBytes, SelectFrom;
  }

  lemma PlanSlot(mem: Mem, n: u64, files: seq<Entry>)
    requires mem.slots > 0 && PlanCommit(mem, n, files).Ok?
    ensures var sb := PlanCommit(mem, n, files).value.superblock;
      && (mem.activeSectors != 0 ==>
            !RangesOverlap(sb.recordStart, sb.recordSectors, mem.activeStart, mem.activeSectors))
      && exists slot: nat :: slot < mem.slots && sb.recordStart == SlotStart(slot, mem.span)
  {
    hide ValidateTree, PayloadSize, Crc32.Checksum, RecordBytes, SlotStart, RangesOverlap, Encodable;
  }

  lemma NewSnapshotReadable(image: Image, plan: Plan, files: seq<Entry>)
    requires 2 <= |image| < U64_LIMIT && ValidPlan(plan, |image|) && InBounds(plan.superblock, |image|)
    requires Encodable(files) && Distinct(files)
    requires plan.record == RecordBytes(plan.superblock.generation, files)
    requires plan.superblock.recordCrc == Crc32.Checksum(plan.record)
    ensures Candidate(WithSuperblock(WithRecord(image, plan), plan.superblock), SuperSector(plan.superblock.generation))
      == Some(Snapshot(plan.superblock, files))
  {
    hide ReadSectors, RecordContents, RecordBytes, Crc32.Checksum, SuperblockBytes, Settle, DecodeSuperblock,
      Encodable, InBounds;
    var sb := plan.superblock;
    var a := WithRecord(image, plan);
    var b := WithSuperblock(a, sb);
    SettleRecord(image, plan.record, sb.recordStart, sb.recordSectors);
    ReadBack(a, plan.record, sb.recordStart, sb.recordSectors);
    assert plan.record[..sb.recordSectors * SECTOR_SIZE] == plan.record;
    InBoundsStart(sb, |image|);
    SameSectors(a, b, sb.recordStart, sb.recordSectors);
    RecordRoundTrip(sb.generation, files);
    SuperblockRoundTrip(sb, |image|);
  }

  lemma InBoundsStart(sb: Superblock, n: u64)
    requires InBounds(sb, n)
    ensures sb.recordStart >= RECORD_AREA_START
  {
  }

  /** Once the superblock is in place the new snapshot is live. */
  lemma NewIsLive(image: Image, mem: Mem, files: seq<Entry>)
    requires Live(image, mem) || Unformatted(image, mem)
    requires mem.slots > 0 && PlanCommit(mem, |image|, files).Ok? && Distinct(files)
    ensures var plan := PlanCommit(mem, |image|, files).value;
      Live(WithSuperblock(WithRecord(image, plan), plan.superblock), Committed(mem, plan, files))
  {
    hide PlanCommit, Candidate, DecodeSuperblock, SuperblockBytes, WithRecord, InBounds, Encodable, RecordBytes,
      Geometry, Crc32.Checksum, Blank, Distinct, SlotStart;
    var n := |image|;
    var plan := PlanCommit(mem, n, files).value;
    var sb := plan.superblock;
    PlanInBounds(mem, n, files);
    PlanSlot(mem, n, files);
    NewSnapshotReadable(image, plan, files);
    var b := WithSuperblock(WithRecord(image, plan), sb);
    var next := Committed(mem, plan, files);
    var slot: nat :| slot < mem.slots && sb.recordStart == SlotStart(slot, mem.span);
    LayoutPositive(sb, n);
    assert ActiveIn(next, slot);
    var other := 1 - SuperSector(sb.generation);
    RecordOffSuperblocks(image, plan);
    assert b[other] == image[other];
    if Unformatted(image, mem) {
      BlankDecodes(image, other);
    } else {
      assert other == SuperSector(mem.generation);
      CandidateSuperblock(image, other);
    }
    SameGeometry(mem, next, n);
  }

  lemma CandidateSuperblock(image: Image, s: nat)
    requires s < |image| < U64_LIMIT && Candidate(image, s).Some?
    ensures DecodeSuperblock(image[s], |image|) == Ok(Candidate(image, s).value.superblock)
  {
    hide DecodeSuperblock, ReadRecord;
  }

  lemma SameGeometry(a: Mem, b: Mem, n: u64)
    requires Geometry(a, n) && a.slots == b.slots && a.span == b.span
    ensures Geometry(b, n)
  {
  }

  lemma LayoutPositive(sb: Superblock, n: u64)
    requires InBounds(sb, n)
    ensures sb.recordSectors > 0
  {
  }

  lemma RecordOffSuperblocks(image: Image, plan: Plan)
    requires 2 <= |image| < U64_LIMIT && ValidPlan(plan, |image|) && InBounds(plan.superblock, |image|)
    ensures WithRecord(image, plan)[0] == image[0] && WithRecord(image, plan)[1] == image[1]
  {
    SettleRecord(image, plan.record, plan.superblock.recordStart, plan.superblock.recordSectors);
    InBoundsStart(plan.superblock, |image|);
  }

  // ----- Losing power inside a commit

  /** Memory and disk agree, on a formatted or on a blank device. */
  ghost predicate InStep(image: Image, mem: Mem)
  {
    Live(image, mem) || Unformatted(image, mem)
  }

  lemma SlotsPositive(image: Image, mem: Mem)
    requires InStep(image, mem)
    ensures mem.slots >= 2 && 2 <= |image| < U64_LIMIT
  {
    hide Candidate, Blank, DecodeSuperblock;
  }

  lemma FrameInStep(a: Image, b: Image, mem: Mem, files: seq<Entry>)
    requires InStep(a, mem) && mem.slots > 0 && |a| < U64_LIMIT && PlanCommit(mem, |a|, files).Ok?
    requires var sb := PlanCommit(mem, |a|, files).value.superblock;
      SameOutside(a, b, sb.recordStart, sb.recordStart + sb.recordSectors)
    ensures InStep(b, mem)
  {
    hide PlanCommit, Candidate, DecodeSuperblock, InBounds, Encodable, RecordBytes, Geometry, Blank, SlotStart,
      Crc32.Checksum;
    var sb := PlanCommit(mem, |a|, files).value.superblock;
    PlanInBounds(mem, |a|, files);
    InBoundsStart(sb, |a|);
    PlanSlot(mem, |a|, files);
    if Live(a, mem) {
      LiveFrame(a, b, mem, sb.recordStart, sb.recordStart + sb.recordSectors);
    } else {
      UnformattedFrame(a, b, mem, sb.recordStart, sb.recordStart + sb.recordSectors);
    }
  }

  lemma CrashWhileWriting(image: Image, ws: seq<Write>, k: nat, crashed: Image, lo: nat, hi: nat)
    requires k <= |ws| && CrashImage(Disk(image, ws[..k]), crashed)
    requires forall i :: 0 <= i < |ws| ==> lo <= ws[i].sector < hi
    ensures SameOutside(image, crashed, lo, hi)
  {
    forall s | 0 <= s < |image| && !(lo <= s < hi)
      ensures image[s] == crashed[s]
    {
    }
  }

  /** Cutting a commit after any of its device operations, with any of the
      unflushed sectors kept, leaves the old state or the new one in step with
      the disk, and always the new one once every operation is done. */
  lemma CrashDuringCommit(image: Image, mem: Mem, files: seq<Entry>, k: nat, crashed: Image)
    requires InStep(image, mem) && mem.slots > 0 && |image| < U64_LIMIT
    requires PlanCommit(mem, |image|, files).Ok? && Distinct(files)
    requires k <= |CommitOps(PlanCommit(mem, |image|, files).value)|
    requires CrashImage(ApplyAll(Disk(image, []), CommitOps(PlanCommit(mem, |image|, files).value)[..k]), crashed)
    ensures InStep(crashed, mem) || Live(crashed, Committed(mem, PlanCommit(mem, |image|, files).value, files))
    ensures k == |CommitOps(PlanCommit(mem, |image|, files).value)| ==>
      Live(crashed, Committed(mem, PlanCommit(mem, |image|, files).value, files))
  {
    hide PlanCommit, InStep, Live, ApplyAll, RecordWrites, WithRecord, Distinct, SuperblockBytes;
    var plan := PlanCommit(mem, |image|, files).value;
    var sb := plan.superblock;
    var m: nat := sb.recordSectors;
    SlotsPositive(image, mem);
    NewIsLiveInStep(image, mem, files);
    RecordInStep(image, mem, files);
    var done := WithSuperblock(WithRecord(image, plan), sb);
    if k <= m {
      WritingRecord(image, plan, k);
      WritesInRange(plan);
      CrashWhileWriting(image, RecordWrites(plan.record, sb.recordStart, m), k, crashed, sb.recordStart,
                        sb.recordStart + m);
      FrameInStep(image, crashed, mem, files);
    } else if k == m + 1 {
      RecordFlushed(image, plan);
      assert crashed == WithRecord(image, plan);
    } else if k == m + 2 {
      SuperblockWritten(image, plan);
      OneSectorCrash(WithRecord(image, plan), SuperWrite(sb), crashed);
    } else {
      CommitDone(image, plan);
      assert CommitOps(plan)[..k] == CommitOps(plan);
      assert crashed == done;
    }
  }

  lemma NewIsLiveInStep(image: Image, mem: Mem, files: seq<Entry>)
    requires InStep(image, mem) && mem.slots > 0 && 2 <= |image| < U64_LIMIT
    requires PlanCommit(mem, |image|, files).Ok? && Distinct(files)
    ensures var plan := PlanCommit(mem, |image|, files).value;
      Live(WithSuperblock(WithRecord(image, plan), plan.superblock), Committed(mem, plan, files))
  {
    hide PlanCommit, Live, Unformatted, WithSuperblock, WithRecord, Distinct;
    NewIsLive(image, mem, files);
  }

  lemma RecordInStep(image: Image, mem: Mem, files: seq<Entry>)
    requires InStep(image, mem) && mem.slots > 0 && |image| < U64_LIMIT && PlanCommit(mem, |image|, files).Ok?
    ensures InStep(WithRecord(image, PlanCommit(mem, |image|, files).value), mem)
  {
    hide PlanCommit, InStep;
    var plan := PlanCommit(mem, |image|, files).value;
    SettleRecord(image, plan.record, plan.superblock.recordStart, plan.superblock.recordSectors);
    FrameInStep(image, WithRecord(image, plan), mem, files);
  }

  lemma WritesInRange(plan: Plan)
    requires |plan.record| == plan.superblock.recordSectors * SECTOR_SIZE
    ensures var sb := plan.superblock; var ws := RecordWrites(plan.record, sb.recordStart, sb.recordSectors);
      forall i :: 0 <= i < |ws| ==> sb.recordStart <= ws[i].sector < sb.recordStart + sb.recordSectors
  {
  }

  lemma OneSectorCrash(image: Image, w: Write, crashed: Image)
    requires w.sector < |image| && CrashImage(Disk(image, [w]), crashed)
    ensures crashed == image || crashed == image[w.sector := w.data]
  {
    forall s | 0 <= s < |image| && s != w.sector
      ensures crashed[s] == image[s]
    {
    }
  }

  // ----- Whole runs

  datatype World = World(image: Image, mem: Mem)

  datatype Event =
    | Acknowledged(files: seq<Entry>)
    | Refused(files: seq<Entry>)
    | PowerLoss(files: seq<Entry>, done: nat, image: Image)

  /** The state a mount builds in memory; a blank device is about to be formatted. */
  function Mounted(image: Image, mem: Mem): Option<Mem>
    requires 2 <= |image| < U64_LIMIT
  {
    var loaded := Load(image);
    if loaded.Err? then None
    else if loaded.value.None? then Some(Mem([], 0, mem.slots, mem.span, 0, 0))
    else
      var snapshot := loaded.value.value;
      Some(Mem(snapshot.files, snapshot.superblock.generation, mem.slots, mem.span,
               snapshot.superblock.recordStart, snapshot.superblock.recordSectors))
  }

  ghost predicate Step(w: World, e: Event, next: World)
  {
    && w.mem.slots > 0 && 2 <= |w.image| < U64_LIMIT && Distinct(e.files)
    && var plan := PlanCommit(w.mem, |w.image|, e.files);
      match e
      case Refused(_) => plan.Err? && next == w
      case Acknowledged(files) =>
        && plan.Ok?
        && Disk(next.image, []) == ApplyAll(Disk(w.image, []), CommitOps(plan.value))
        && next.mem == Committed(w.mem, plan.value, files)
      case PowerLoss(_, done, image) =>
        && plan.Ok? && done <= |CommitOps(plan.value)|
        && CrashImage(ApplyAll(Disk(w.image, []), CommitOps(plan.value)[..done]), image)
        && 2 <= |image| < U64_LIMIT
        && next.image == image
        && Some(next.mem) == Mounted(image, w.mem)
  }

  ghost predicate Run(ws: seq<World>, es: seq<Event>)
  {
    |ws| == |es| + 1 && forall i :: 0 <= i < |es| ==> Step(ws[i], es[i], ws[i + 1])
  }

  lemma MountedIs(image: Image, mem: Mem, was: Mem)
    requires InStep(image, mem) && was.slots == mem.slots && was.span == mem.span
    ensures 2 <= |image| < U64_LIMIT && Mounted(image, was) == Some(mem)
  {
    hide Candidate, Load;
    if Live(image, mem) {
      LiveLoads(image, mem);
    } else {
      UnformattedLoads(image, mem);
    }
  }

  lemma StepKeeps(w: World, e: Event, next: World)
    requires Step(w, e, next) && InStep(w.image, w.mem)
    ensures InStep(next.image, next.mem)
    ensures next.mem == w.mem ||
      (next.mem.files == e.files && next.mem.generation == w.mem.generation + 1)
    ensures e.Acknowledged? ==> next.mem.files == e.files && next.mem.generation == w.mem.generation + 1
  {
    hide InStep, PlanCommit, CommitOps, ApplyAll, Live, Distinct, Mounted;
    match e
    case Refused(_) =>
    case Acknowledged(files) =>
      var plan := PlanCommit(w.mem, |w.image|, files).value;
      var ops := CommitOps(plan);
      assert ops[..|ops|] == ops;
      assert CrashImage(ApplyAll(Disk(w.image, []), ops[..|ops|]), next.image);
      CrashDuringCommit(w.image, w.mem, files, |ops|, next.image);
      LiveInStep(next.image, next.mem);
    case PowerLoss(files, done, image) =>
      var plan := PlanCommit(w.mem, |w.image|, files).value;
      CrashDuringCommit(w.image, w.mem, files, done, image);
      var after := Committed(w.mem, plan, files);
      if InStep(image, w.mem) {
        MountedIs(image, w.mem, w.mem);
      } else {
        LiveInStep(image, after);
        MountedIs(image, after, w.mem);
      }
  }

  lemma LiveInStep(image: Image, mem: Mem)
    requires Live(image, mem)
    ensures InStep(image, mem)
  {
    hide Live;
  }

  /** Over every run of commits, refusals, power losses and remounts that starts
      on a blank device, memory and disk stay in step. */
  lemma {:induction false} RunsStayInStep(ws: seq<World>, es: seq<Event>, i: nat)
    requires Run(ws, es) && Unformatted(ws[0].image, ws[0].mem) && i < |ws|
    ensures InStep(ws[i].image, ws[i].mem)
  {
    hide Step, Unformatted, Live;
    if i == 0 {
      UnformattedInStep(ws[0].image, ws[0].mem);
    } else {
      RunsStayInStep(ws, es, i - 1);
      assert Step(ws[i - 1], es[i - 1], ws[i - 1 + 1]);
      hide InStep;
      StepKeeps(ws[i - 1], es[i - 1], ws[i]);
    }
  }

  lemma UnformattedInStep(image: Image, mem: Mem)
    requires Unformatted(image, mem)
    ensures InStep(image, mem)
  {
    hide Unformatted;
  }

  /** Every step of such a run, power losses included, leaves exactly the previous
      files or exactly those of the commit in progress, and an acknowledged commit
      leaves its own. */
  lemma EachStepIsAtomic(ws: seq<World>, es: seq<Event>, i: nat)
    requires Run(ws, es) && Unformatted(ws[0].image, ws[0].mem) && i < |es|
    ensures ws[i + 1].mem == ws[i].mem ||
      (ws[i + 1].mem.files == es[i].files && ws[i + 1].mem.generation == ws[i].mem.generation + 1)
    ensures es[i].Acknowledged? ==> ws[i + 1].mem.files == es[i].files
  {
    hide Step, InStep, Unformatted;
    RunsStayInStep(ws, es, i);
    assert Step(ws[i], es[i], ws[i + 1]);
    StepKeeps(ws[i], es[i], ws[i + 1]);
  }

  /** No later mount goes back behind a state once reached: generations never
      fall, and an unchanged generation means unchanged files. */
  lemma {:induction false} NothingIsLost(ws: seq<World>, es: seq<Event>, i: nat, j: nat)
    requires Run(ws, es) && Unformatted(ws[0].image, ws[0].mem) && i <= j < |ws|
    ensures ws[i].mem.generation <= ws[j].mem.generation
    ensures ws[i].mem.generation == ws[j].mem.generation ==> ws[i].mem == ws[j].mem
  {
    hide Step, Unformatted;
    if i < j {
      NothingIsLost(ws, es, i, j - 1);
      EachStepIsAtomic(ws, es, j - 1);
    }
  }
}
