/** The mounted file system as it runs: a device that may fail at any operation,
    and a `CodexFs` object that mounts, commits and changes the tree on it. */
module FsVolume {
  import opened Bytes
  import opened Wrappers
  import opened FsPath
  import opened FsTree
  import opened FsNamespace
  import opened FsOps
  import opened FsRecord
  import opened FsSuperblock
  import opened FsCommit
  import opened FsCrash
  import opened FsDamage
  import opened FsCapacity
  import Crc32

  datatype MountState = Formatted | Existing

  /** A block device. Unless reads and writes are declared to work, every read, write and
      flush may fail; a failed write may still have reached the device's cache. */
  class Device {
    var durable: Image
    var pending: seq<Write>
    const supportsFlush: bool
    const readsWork: bool
    const writesWork: bool

    ghost function State(): Disk
      reads this
    {
      Disk(durable, pending)
    }

    constructor (image: Image, supportsFlush: bool, readsWork: bool, writesWork: bool)
      ensures State() == Disk(image, []) && this.supportsFlush == supportsFlush
      ensures this.readsWork == readsWork && this.writesWork == writesWork
    {
      durable, pending, this.supportsFlush := image, [], supportsFlush;
      this.readsWork, this.writesWork := readsWork, writesWork;
    }

    /** Reads a sector, with everything that was written to it. */
    method ReadSector(sector: nat) returns (r: Result<Sector, FsError>)
      ensures r.Ok? ==> sector < |durable| && r.value == Settle(durable, pending)[sector]
      ensures r.Err? ==> r == Err(FsError.Block) && (sector >= |durable| || !readsWork)
    {
      var fails: bool := *;
      if sector >= |durable| || (fails && !readsWork) {
        return Err(FsError.Block);
      }
      r := Ok(Settle(durable, pending)[sector]);
    }

    method WriteSector(sector: nat, data: Sector) returns (r: Outcome<FsError>)
      modifies this`pending
      ensures r.Pass? ==> sector < |durable| && pending == old(pending) + [Write(sector, data)]
      ensures r.Fail? ==> r == Fail(FsError.Block) && (sector >= |durable| || !writesWork)
      ensures r.Fail? ==>
        pending == old(pending) || (sector < |durable| && pending == old(pending) + [Write(sector, data)])
    {
      var early: bool, late: bool := *, *;
      if sector >= |durable| || (early && !writesWork) {
        return Fail(FsError.Block);
      }
      pending := pending + [Write(sector, data)];
      if late && !writesWork {
        return Fail(FsError.Block);
      }
      r := Pass;
    }

    method Flush() returns (r: Outcome<FsError>)
      modifies this
      ensures r.Pass? ==> State() == Apply(old(State()), FlushOp)
      ensures r.Fail? ==> r == Fail(FsError.Block) && State() == old(State()) && !writesWork
    {
      var fails: bool := *;
      if fails && !writesWork {
        return Fail(FsError.Block);
      }
      durable, pending := Settle(durable, pending), [];
      r := Pass;
    }
  }

  /** Reads the sectors of a record one after the other. */
  method LoadRecord(device: Device, sb: Superblock) returns (r: Result<seq<Entry>, FsError>, ghost readable: bool)
    requires device.pending == []
    requires sb.recordStart + sb.recordSectors <= |device.durable| && sb.recordBytes == sb.recordSectors * SECTOR_SIZE
    ensures readable ==> r == ReadRecord(device.durable, sb)
    ensures !readable ==> !device.readsWork && r == Err(FsError.Block)
  {
    hide RecordContents, Crc32.Checksum;
    readable := true;
    var record: seq<byte> := [];
    for i := 0 to sb.recordSectors
      invariant record == ReadSectors(device.durable, sb.recordStart, i)
    {
      var sector := device.ReadSector(sb.recordStart + i);
      if sector.Err? {
        return Err(sector.error), false;
      }
      record := record + sector.value;
    }
    var checksum := Crc32.Compute(record);
    if checksum != sb.recordCrc {
      return Err(CorruptRecord), true;
    }
    r := DecodeRecord(record, sb.generation);
  }

  /** Looks at both superblocks and keeps the newest whose record can be read and is intact.
      An unreadable superblock is reported; an unreadable record is passed over. */
  method LoadLatestSnapshot(device: Device)
    returns (r: Result<Option<Snapshot>, FsError>, ghost first: bool, ghost second: bool)
    requires device.pending == [] && 2 <= |device.durable| < U64_LIMIT
    ensures r == Err(FsError.Block) || r == LoadSeeing(device.durable, first, second)
    ensures device.readsWork ==> r == Load(device.durable)
  {
    hide ReadRecord, DecodeSuperblock;
    first, second := true, true;
    var sectors: seq<Sector> := [];
    var sawNonzero := false;
    for s := 0 to 2
      invariant |sectors| == s && forall k :: 0 <= k < s ==> sectors[k] == device.durable[k]
      invariant sawNonzero <==> exists k :: 0 <= k < s && !Blank(sectors[k])
    {
      var sector := device.ReadSector(s);
      if sector.Err? {
        return Err(sector.error), first, second;
      }
      sectors := sectors + [sector.value];
      sawNonzero := sawNonzero || !Blank(sector.value);
    }
    ghost var image := device.durable;
    assert sectors[0] == image[0] && sectors[1] == image[1];
    var best: Option<Snapshot> := None;
    for s := 0 to 2
      invariant s == 0 ==> best == None && first && second
      invariant s == 1 ==> best == Seen(image, 0, first) && second
      invariant s == 2 ==> best == Newer(Seen(image, 0, first), Seen(image, 1, second))
      invariant device.readsWork ==> first && second
    {
      var decoded := DecodeSuperblock(sectors[s], |device.durable|);
      if decoded.Ok? {
        var files;
        ghost var readable;
        files, readable := LoadRecord(device, decoded.value);
        if files.Ok? && (best.None? || decoded.value.generation > best.value.superblock.generation) {
          best := Some(Snapshot(decoded.value, files.value));
        }
        if s == 0 {
          first := readable;
        } else {
          second := readable;
        }
      }
    }
    if best.None? && sawNonzero {
      return Err(CorruptSuperblocks), first, second;
    }
    r := Ok(best);
  }

  /** Walks the components of a path and inserts the missing directories. */
  method CreateComponents(entries: seq<Entry>, path: Name, permissions: u16) returns (r: Result<seq<Entry>, FsError>)
    requires ValidPath(path)
    ensures r == CreateAllFrom(entries, path, permissions, 1)
  {
    assert |path| >= 1;
    hide CreateComponent, Utf8, ValidPath, NextSlash;
    var next := entries;
    var i := 1;
    while true
      invariant 0 < i <= |path|
      invariant CreateAllFrom(entries, path, permissions, 1) == CreateAllFrom(next, path, permissions, i)
      decreases |path| - i
    {
      var j := NextSlash(path, i);
      r := CreateComponent(next, path, permissions, i);
      if r.Err? || j == |path| {
        return;
      }
      next := r.value;
      i := j + 1;
    }
  }

  /** What was found on the disk is the given snapshot. */
  predicate Confirms(found: Result<Option<Snapshot>, FsError>, generation: u64, files: seq<Entry>)
  {
    && found.Ok? && found.value.Some?
    && found.value.value.superblock.generation == generation && found.value.value.files == files
  }

  lemma OnlyCorrupt(image: Image, first: bool, second: bool)
    requires 2 <= |image| < U64_LIMIT
    ensures LoadSeeing(image, first, second).Err? ==> LoadSeeing(image, first, second) == Err(CorruptSuperblocks)
    ensures Load(image).Err? ==> Load(image) == Err(CorruptSuperblocks)
  {
    hide Candidate, Seen;
  }

  class CodexFs {
    const device: Device
    var files: seq<Entry>
    var generation: u64
    const recordSlots: u64
    const recordSlotSectors: u32
    var activeRecordStart: u64
    var activeRecordSectors: u32
    const mountState: MountState

    ghost function Memory(): Mem
      reads this
    {
      Mem(files, generation, recordSlots, recordSlotSectors, activeRecordStart, activeRecordSectors)
    }

    /** Nothing is unflushed, and memory and disk agree. */
    ghost predicate Synced()
      reads this, device
    {
      device.pending == [] && InStep(device.durable, Memory())
    }

    /** Synced on a formatted device, with a tree that keeps its promises. */
    ghost predicate Valid()
      reads this, device
    {
      device.pending == [] && Live(device.durable, Memory()) && TreeOk(files)
    }

    constructor (device: Device, files: seq<Entry>, generation: u64, slots: u64, span: u32, start: u64, sectors: u32,
                 state: MountState)
      ensures this.device == device && Memory() == Mem(files, generation, slots, span, start, sectors)
      ensures mountState == state
    {
      this.device, this.files, this.generation := device, files, generation;
      recordSlots, recordSlotSectors := slots, span;
      activeRecordStart, activeRecordSectors, mountState := start, sectors, state;
    }

    /** Tries the slots from the generation's own one on. */
    method SelectRecordStart(generation: u64, sectors: u32) returns (r: Result<u64, FsError>)
      requires recordSlots > 0 && |device.durable| < U64_LIMIT
      ensures r == SelectFrom(Memory(), |device.durable|, generation, sectors, 0)
    {
      hide SlotStart, RangesOverlap;
      var attempt := 0;
      while attempt < recordSlots
        invariant attempt <= recordSlots
        invariant SelectFrom(Memory(), |device.durable|, generation, sectors, 0)
          == SelectFrom(Memory(), |device.durable|, generation, sectors, attempt)
      {
        if generation + attempt >= U64_LIMIT {
          return Err(ArithmeticOverflow);
        }
        var slot := (generation + attempt) % recordSlots;
        var start := SlotStart(slot, recordSlotSectors);
        if start + sectors >= U64_LIMIT {
          return Err(ArithmeticOverflow);
        }
        if start + sectors <= |device.durable| {
          if activeRecordSectors == 0 {
            return Ok(start);
          }
          if activeRecordStart + activeRecordSectors >= U64_LIMIT {
            return Err(ArithmeticOverflow);
          }
          if !RangesOverlap(start, sectors, activeRecordStart, activeRecordSectors) {
            return Ok(start);
          }
        }
        attempt := attempt + 1;
      }
      r := Err(SnapshotTooLarge);
    }

    /** The plan of a commit: encode the record and choose its slot. */
    method Prepare(next: seq<Entry>) returns (r: Result<Plan, FsError>)
      requires recordSlots > 0 && |device.durable| < U64_LIMIT
      ensures r == PlanCommit(Memory(), |device.durable|, next)
      ensures r.Err? ==> r.error != FsError.Block
    {
      hide RecordBytes, PayloadSize, ValidateTree, SelectFrom, Crc32.Checksum;
      if generation + 1 >= U64_LIMIT {
        return Err(ArithmeticOverflow);
      }
      var encoded := EncodeRecord(generation + 1, next);
      if encoded.Err? {
        NoDeviceError(next);
        return Err(encoded.error);
      }
      var record := encoded.value;
      var sectors := |record| / SECTOR_SIZE;
      if sectors > recordSlotSectors {
        return Err(SnapshotTooLarge);
      }
      var start := SelectRecordStart(generation + 1, sectors);
      if start.Err? {
        NoDeviceErrorSelecting(Memory(), |device.durable|, generation + 1, sectors, 0);
        return Err(start.error);
      }
      var checksum := Crc32.Compute(record);
      r := Ok(Plan(Superblock(generation + 1, start.value, sectors, |record|, checksum, |device.durable|), record));
    }

    /** Writes the record, flushes, writes the superblock, flushes. When the device
        fails, exactly a prefix of these operations has been done. */
    method CommitFiles(next: seq<Entry>) returns (r: Outcome<FsError>)
      requires Synced() && Distinct(next)
      modifies this`generation, this`activeRecordStart, this`activeRecordSectors, device
      ensures recordSlots > 0 && |old(device.durable)| < U64_LIMIT
      ensures r.Pass? ==> Planned(old(Memory()), old(device.State()), next).Ok?
      ensures r.Pass? ==>
        var plan := Planned(old(Memory()), old(device.State()), next).value;
        && device.State() == ApplyAll(old(device.State()), CommitOps(plan))
        && Memory().(files := next) == Committed(old(Memory()), plan, next)
      ensures r.Pass? ==> device.pending == [] && Live(device.durable, Memory().(files := next))
      ensures r.Fail? ==> Memory() == old(Memory())
      ensures r.Fail? && r.error != FsError.Block ==>
        Planned(old(Memory()), old(device.State()), next) == Err(r.error) && device.State() == old(device.State())
      ensures r == Fail(FsError.Block) ==>
        && !device.writesWork
        && Planned(old(Memory()), old(device.State()), next).Ok?
        && PartlyDone(old(device.State()), Planned(old(Memory()), old(device.State()), next).value, device.State())
    {
      hide InStep, Live, PlanCommit, ApplyAll, CommitOps, SectorOf, SuperblockBytes, Distinct;
      SlotsPositive(device.durable, Memory());
      ghost var before := device.State();
      ghost var mem := Memory();
      var prepared := Prepare(next);
      if prepared.Err? {
        return Fail(prepared.error);
      }
      var plan := prepared.value;
      var sb := plan.superblock;
      ghost var ops := CommitOps(plan);
      assert ops[..0] == [];
      assert ApplyAll(before, []) == before by { NoOps(before); }
      for i := 0 to sb.recordSectors
        invariant Memory() == mem && device.durable == before.durable
        invariant device.State() == ApplyAll(before, ops[..i])
      {
        r := device.WriteSector(sb.recordStart + i, SectorOf(plan.record, i));
        NextOp(plan, before, i);
        if r.Fail? {
          if device.State() == ApplyAll(before, ops[..i]) {
          } else {
            assert device.State() == ApplyAll(before, ops[..i + 1]);
          }
          return;
        }
      }
      var m := sb.recordSectors as nat;
      RecordOps(plan, before);
      r := device.Flush();
      if r.Fail? {
        return;
      }
      r := device.WriteSector(SuperSector(sb.generation), SuperblockBytes(sb));
      if r.Fail? {
        if device.State() == ApplyAll(before, ops[..m + 1]) {
        } else {
          assert device.State() == ApplyAll(before, ops[..m + 2]);
        }
        return;
      }
      r := device.Flush();
      if r.Fail? {
        assert device.State() == ApplyAll(before, ops[..m + 2]);
        return;
      }
      generation := sb.generation;
      activeRecordStart := sb.recordStart;
      activeRecordSectors := sb.recordSectors;
      CommitLives(before.durable, mem, next, device.durable);
    }

    /** Commits a new tree and adopts it. */
    method Store(next: seq<Entry>) returns (r: Outcome<FsError>)
      requires Valid() && Settled(next)
      modifies this, device
      ensures r.Pass? ==> files == next && Valid()
      ensures r.Fail? ==> files == old(files) && Atomic(old(Memory()), Ok(next), device.State())
      ensures r.Fail? && r.error != FsError.Block ==> Valid() && device.State() == old(device.State())
      ensures Ended(r, Ok(next), old(Memory()), old(device.durable), device.writesWork)
    {
      hide Live, InStep, PlanCommit, TreeOk, ApplyAll, CommitOps, Committed, Sorted, Closed, Acceptable;
      ghost var mem, image := Memory(), device.durable;
      assert InStep(image, mem) by { LiveInStep(image, mem); }
      SlotsPositive(image, mem);
      CommitIff(image, mem, next);
      r := CommitFiles(next);
      if r.Fail? {
        if r.error == FsError.Block {
          PartlyDoneIsAtomic(image, mem, next, device.State());
        } else {
          UntouchedIsAtomic(image, mem, next);
        }
        return;
      }
      PlannedTreeOk(mem, image, next);
      files := next;
    }

    method WriteFile(path: Name, data: seq<byte>, permissions: Option<u16>) returns (r: Outcome<FsError>)
      requires Valid()
      modifies this, device
      ensures r.Pass? ==> Valid() && WriteNext(old(files), path, data, permissions) == Ok(files)
      ensures r.Fail? ==> files == old(files)
      ensures r.Fail? ==> Atomic(old(Memory()), WriteNext(old(files), path, data, permissions), device.State())
      ensures r.Fail? && r.error != FsError.Block ==> Valid() && device.State() == old(device.State())
      ensures Ended(r, WriteNext(old(files), path, data, permissions), old(Memory()), old(device.durable),
                    device.writesWork)
    {
      hide Live, TreeOk, WriteNext, Settled;
      var next := WriteNext(files, path, data, permissions);
      if next.Err? {
        UnchangedIsAtomic(device.durable, Memory(), next);
        return Fail(next.error);
      }
      WriteMeaning(files, path, data, permissions);
      r := Store(next.value);
    }

    method CreateDir(path: Name, permissions: u16) returns (r: Outcome<FsError>)
      requires Valid()
      modifies this, device
      ensures r.Pass? ==> Valid() && CreateDirNext(old(files), path, permissions) == Ok(files)
      ensures r.Fail? ==> files == old(files)
      ensures r.Fail? ==> Atomic(old(Memory()), CreateDirNext(old(files), path, permissions), device.State())
      ensures r.Fail? && r.error != FsError.Block ==> Valid() && device.State() == old(device.State())
      ensures EndedUnlessSame(r, CreateDirNext(old(files), path, permissions), old(Memory()), old(device.durable),
                              device.writesWork)
    {
      hide Live, TreeOk, CreateDirNext, Settled;
      var next := CreateDirNext(files, path, permissions);
      if next.Err? {
        UnchangedIsAtomic(device.durable, Memory(), next);
        return Fail(next.error);
      }
      if next.value == files {
        return Pass;
      }
      CreateDirMeaning(files, path, permissions);
      r := Store(next.value);
    }

    /** Creates a directory and whatever is missing above it. */
    method CreateDirAll(path: Name, permissions: u16) returns (r: Outcome<FsError>)
      requires Valid()
      modifies this, device
      ensures r.Pass? ==> Valid() && CreateDirAllNext(old(files), path, permissions) == Ok(files)
      ensures r.Fail? ==> files == old(files)
      ensures r.Fail? ==> Atomic(old(Memory()), CreateDirAllNext(old(files), path, permissions), device.State())
      ensures r.Fail? && r.error != FsError.Block ==> Valid() && device.State() == old(device.State())
      ensures EndedUnlessSame(r, CreateDirAllNext(old(files), path, permissions), old(Memory()), old(device.durable),
                              device.writesWork)
    {
      hide Live, TreeOk, Settled, InsertDirectory, Materialize, Utf8;
      ghost var goal := CreateDirAllNext(files, path, permissions);
      if goal.Err? {
        UnchangedIsAtomic(device.durable, Memory(), goal);
      }
      if !ValidPath(path) {
        return Fail(InvalidPath);
      }
      if permissions >= PERMISSION_LIMIT {
        return Fail(InvalidPermissions);
      }
      hide ValidPath, CreateAllFrom;
      var created := CreateComponents(files, path, permissions);
      if created.Err? {
        return Fail(created.error);
      }
      var next := Materialize(created.value);
      if next.Err? {
        return Fail(next.error);
      }
      if next.value == files {
        return Pass;
      }
      CreateDirAllMeaning(files, path, permissions);
      r := Store(next.value);
    }

    method SetPermissions(path: Name, permissions: u16) returns (r: Outcome<FsError>)
      requires Valid()
      modifies this, device
      ensures r.Pass? ==> Valid() && SetPermissionsNext(old(files), path, permissions) == Ok(files)
      ensures r.Fail? ==> files == old(files)
      ensures r.Fail? ==> Atomic(old(Memory()), SetPermissionsNext(old(files), path, permissions), device.State())
      ensures r.Fail? && r.error != FsError.Block ==> Valid() && device.State() == old(device.State())
      ensures EndedUnlessSame(r, SetPermissionsNext(old(files), path, permissions), old(Memory()), old(device.durable),
                              device.writesWork)
    {
      hide Live, TreeOk, SetPermissionsNext, Settled;
      var next := SetPermissionsNext(files, path, permissions);
      if next.Err? {
        UnchangedIsAtomic(device.durable, Memory(), next);
        return Fail(next.error);
      }
      if next.value == files {
        return Pass;
      }
      SetPermissionsMeaning(files, path, permissions);
      r := Store(next.value);
    }

    method RemoveFile(path: Name) returns (r: Outcome<FsError>)
      requires Valid()
      modifies this, device
      ensures r.Pass? ==> Valid() && RemoveFileNext(old(files), path) == Ok(files) && !Contains(files, path)
      ensures r.Fail? ==> files == old(files)
      ensures r.Fail? ==> Atomic(old(Memory()), RemoveFileNext(old(files), path), device.State())
      ensures r.Fail? && r.error != FsError.Block ==> Valid() && device.State() == old(device.State())
      ensures Ended(r, RemoveFileNext(old(files), path), old(Memory()), old(device.durable), device.writesWork)
    {
      hide Live, TreeOk, RemoveFileNext, Settled, Tree;
      var next := RemoveFileNext(files, path);
      if next.Err? {
        UnchangedIsAtomic(device.durable, Memory(), next);
        return Fail(next.error);
      }
      RemoveFileMeaning(files, path);
      assert path !in Tree(next.value);
      r := Store(next.value);
    }

    method RemoveDir(path: Name) returns (r: Outcome<FsError>)
      requires Valid()
      modifies this, device
      ensures r.Pass? ==> Valid() && RemoveDirNext(old(files), path) == Ok(files) && !Contains(files, path)
      ensures r.Fail? ==> files == old(files)
      ensures r.Fail? ==> Atomic(old(Memory()), RemoveDirNext(old(files), path), device.State())
      ensures r.Fail? && r.error != FsError.Block ==> Valid() && device.State() == old(device.State())
      ensures Ended(r, RemoveDirNext(old(files), path), old(Memory()), old(device.durable), device.writesWork)
    {
      hide Live, TreeOk, RemoveDirNext, Settled, Tree;
      var next := RemoveDirNext(files, path);
      if next.Err? {
        UnchangedIsAtomic(device.durable, Memory(), next);
        return Fail(next.error);
      }
      RemoveDirMeaning(files, path);
      assert path !in Tree(next.value);
      r := Store(next.value);
    }

    /** The snapshot on the disk must be the one in memory; where it lies is taken over from the disk. */
    method VerifyCommittedState() returns (r: Outcome<FsError>, ghost first: bool, ghost second: bool)
      requires device.pending == [] && 2 <= |device.durable| < U64_LIMIT
      modifies this`activeRecordStart, this`activeRecordSectors
      ensures r.Pass? ==>
        var found := LoadSeeing(device.durable, first, second);
        && Confirms(found, generation, files)
        && activeRecordStart == found.value.value.superblock.recordStart
        && activeRecordSectors == found.value.value.superblock.recordSectors
      ensures r.Fail? ==> Memory() == old(Memory())
      ensures device.readsWork ==> (r.Pass? <==> Confirms(Load(device.durable), generation, files))
      ensures device.readsWork ==> (r == Fail(CorruptSuperblocks) <==> Load(device.durable) == Err(CorruptSuperblocks))
      ensures r.Fail? ==> r.error in [FsError.Block, CorruptSuperblocks, VerificationFailed]
      ensures r == Fail(FsError.Block) ==> !device.readsWork
      ensures old(Valid()) ==> Valid() && Memory() == old(Memory()) && (device.readsWork ==> r.Pass?)
    {
      hide Load, TreeOk, Candidate, LoadSeeing, Live;
      ghost var mem := Memory();
      var loaded;
      loaded, first, second := LoadLatestSnapshot(device);
      OnlyCorrupt(device.durable, first, second);
      if Live(device.durable, mem) {
        LiveLoads(device.durable, mem);
        UnreadableFallsBack(device.durable, mem, first, second);
      }
      if loaded.Err? {
        return Fail(loaded.error), first, second;
      }
      if loaded.value.None? {
        return Fail(VerificationFailed), first, second;
      }
      var snapshot := loaded.value.value;
      if snapshot.superblock.generation != generation || snapshot.files != files {
        return Fail(VerificationFailed), first, second;
      }
      activeRecordStart := snapshot.superblock.recordStart;
      activeRecordSectors := snapshot.superblock.recordSectors;
      r := Pass;
    }
  }

  ghost function Planned(mem: Mem, d: Disk, next: seq<Entry>): Result<Plan, FsError>
    requires mem.slots > 0 && |d.durable| < U64_LIMIT
  {
    PlanCommit(mem, |d.durable|, next)
  }

  /** How an operation that wants to store `next` ends: refused by the namespace, refused by
      the commit, stopped by the device, or done. */
  ghost predicate Ended(r: Outcome<FsError>, next: Result<seq<Entry>, FsError>, mem: Mem, image: Image,
                        writesWork: bool)
  {
    if next.Err? then r == Fail(next.error)
    else if !Acceptable(mem, next.value) then
      && r.Fail? && r.error != FsError.Block
      && mem.slots > 0 && |image| < U64_LIMIT && PlanCommit(mem, |image|, next.value) == Err(r.error)
    else r.Pass? || (r == Fail(FsError.Block) && !writesWork)
  }

  /** The same for an operation that stores nothing when nothing changes. */
  ghost predicate EndedUnlessSame(r: Outcome<FsError>, next: Result<seq<Entry>, FsError>, mem: Mem, image: Image,
                                  writesWork: bool)
  {
    if next == Ok(mem.files) then r.Pass? else Ended(r, next, mem, image, writesWork)
  }

  /** Some number of the commit's operations has been done, and nothing else. */
  ghost predicate PartlyDone(before: Disk, plan: Plan, after: Disk)
    requires |plan.record| == plan.superblock.recordSectors * SECTOR_SIZE
  {
    exists k :: 0 <= k <= |CommitOps(plan)| && after == ApplyAll(before, CommitOps(plan)[..k])
  }

  lemma NoDeviceError(files: seq<Entry>)
    ensures ValidateTree(files, true).Fail? ==> ValidateTree(files, true).error != FsError.Block
  {
    NoDeviceErrorFrom(files, 0);
  }

  lemma {:induction false} NoDeviceErrorFrom(files: seq<Entry>, i: nat)
    requires i <= |files|
    ensures ValidateFrom(files, true, i).Fail? ==> ValidateFrom(files, true, i).error != FsError.Block
    decreases |files| - i
  {
    hide Utf8, ValidPath, Parent;
    if i < |files| {
      NoDeviceErrorFrom(files, i + 1);
    }
  }

  lemma {:induction false} NoDeviceErrorSelecting(mem: Mem, n: u64, generation: u64, sectors: u32, attempt: nat)
    requires mem.slots > 0
    ensures SelectFrom(mem, n, generation, sectors, attempt).Err? ==>
      SelectFrom(mem, n, generation, sectors, attempt).error != FsError.Block
    decreases mem.slots - attempt
  {
    if attempt < mem.slots {
      NoDeviceErrorSelecting(mem, n, generation, sectors, attempt + 1);
    }
  }

  lemma NoOps(d: Disk)
    ensures ApplyAll(d, []) == d
  {
  }

  lemma NextOp(plan: Plan, d: Disk, i: nat)
    requires |plan.record| == plan.superblock.recordSectors * SECTOR_SIZE && i < plan.superblock.recordSectors
    ensures ApplyAll(d, CommitOps(plan)[..i + 1])
      == Apply(ApplyAll(d, CommitOps(plan)[..i]),
               WriteOp(Write(plan.superblock.recordStart + i, SectorOf(plan.record, i))))
  {
    hide ApplyAll, Apply, SectorOf;
    var op := WriteOp(Write(plan.superblock.recordStart + i, SectorOf(plan.record, i)));
    assert CommitOps(plan)[..i + 1] == CommitOps(plan)[..i] + [op];
    ApplyOne(d, CommitOps(plan)[..i], op);
  }

  lemma RecordOps(plan: Plan, d: Disk)
    requires |plan.record| == plan.superblock.recordSectors * SECTOR_SIZE
    ensures var m := plan.superblock.recordSectors as nat; var ops := CommitOps(plan);
      && ApplyAll(d, ops[..m + 1]) == Apply(ApplyAll(d, ops[..m]), FlushOp)
      && ApplyAll(d, ops[..m + 2]) == Apply(ApplyAll(d, ops[..m + 1]), WriteOp(SuperWrite(plan.superblock)))
      && ApplyAll(d, ops) == Apply(ApplyAll(d, ops[..m + 2]), FlushOp)
  {
    hide ApplyAll, Apply, SuperWrite, RecordWrites;
    var m := plan.superblock.recordSectors as nat;
    var ops := CommitOps(plan);
    assert ops[..m + 1] == ops[..m] + [FlushOp];
    ApplyOne(d, ops[..m], FlushOp);
    assert ops[..m + 2] == ops[..m + 1] + [WriteOp(SuperWrite(plan.superblock))];
    ApplyOne(d, ops[..m + 1], WriteOp(SuperWrite(plan.superblock)));
    assert ops == ops[..m + 2] + [FlushOp];
    ApplyOne(d, ops[..m + 2], FlushOp);
  }

  lemma CommitLives(image: Image, mem: Mem, next: seq<Entry>, after: Image)
    requires InStep(image, mem) && mem.slots > 0 && |image| < U64_LIMIT && Distinct(next)
    requires PlanCommit(mem, |image|, next).Ok?
    requires ApplyAll(Disk(image, []), CommitOps(PlanCommit(mem, |image|, next).value)) == Disk(after, [])
    ensures Live(after, Committed(mem, PlanCommit(mem, |image|, next).value, next))
  {
    hide InStep, Live, PlanCommit, ApplyAll, CommitOps, Distinct;
    var ops := CommitOps(PlanCommit(mem, |image|, next).value);
    assert ops[..|ops|] == ops;
    assert CrashImage(Disk(after, []), after);
    CrashDuringCommit(image, mem, next, |ops|, after);
  }

  // ----- What a failed operation leaves behind

  /** Whatever survives a power loss from here, the next mount finds the old
      state or the attempted tree one generation later. */
  ghost predicate Atomic(mem: Mem, attempt: Result<seq<Entry>, FsError>, d: Disk)
  {
    forall image: Image :: CrashImage(d, image) ==>
      Live(image, mem) || (attempt.Ok? && NextGeneration(image, mem, attempt.value))
  }

  ghost predicate NextGeneration(image: Image, mem: Mem, next: seq<Entry>)
  {
    exists after: Mem :: after.files == next && after.generation == mem.generation + 1 && Live(image, after)
  }

  lemma UntouchedImage(image: Image, crashed: Image)
    requires CrashImage(Disk(image, []), crashed)
    ensures crashed == image
  {
  }

  lemma UnchangedIsAtomic(image: Image, mem: Mem, attempt: Result<seq<Entry>, FsError>)
    requires Live(image, mem)
    ensures Atomic(mem, attempt, Disk(image, []))
  {
    hide Live;
    forall crashed: Image | CrashImage(Disk(image, []), crashed)
      ensures Live(crashed, mem)
    {
      UntouchedImage(image, crashed);
    }
  }

  lemma UntouchedIsAtomic(image: Image, mem: Mem, next: seq<Entry>)
    requires Live(image, mem)
    ensures Atomic(mem, Ok(next), Disk(image, []))
  {
    hide Live;
    UnchangedIsAtomic(image, mem, Ok(next));
  }

  lemma PartlyDoneIsAtomic(image: Image, mem: Mem, next: seq<Entry>, d: Disk)
    requires Live(image, mem) && mem.slots > 0 && |image| < U64_LIMIT && Distinct(next)
    requires PlanCommit(mem, |image|, next).Ok?
    requires PartlyDone(Disk(image, []), PlanCommit(mem, |image|, next).value, d)
    ensures Atomic(mem, Ok(next), d)
  {
    hide Live, PlanCommit, ApplyAll, CommitOps, Distinct, InStep;
    var plan := PlanCommit(mem, |image|, next).value;
    var k :| 0 <= k <= |CommitOps(plan)| && d == ApplyAll(Disk(image, []), CommitOps(plan)[..k]);
    LiveInStep(image, mem);
    forall crashed: Image | CrashImage(d, crashed)
      ensures Live(crashed, mem) || NextGeneration(crashed, mem, next)
    {
      CrashDuringCommit(image, mem, next, k, crashed);
      if InStep(crashed, mem) {
        NotUnformatted(image, mem, crashed);
      }
    }
  }

  lemma NotUnformatted(image: Image, mem: Mem, crashed: Image)
    requires Live(image, mem) && InStep(crashed, mem)
    ensures Live(crashed, mem)
  {
    hide Candidate, DecodeSuperblock, Geometry;
  }

  lemma PlannedTreeOk(mem: Mem, image: Image, next: seq<Entry>)
    requires mem.slots > 0 && |image| < U64_LIMIT && PlanCommit(mem, |image|, next).Ok? && Settled(next)
    ensures TreeOk(next)
  {
    hide PlanCommit, Sorted, GoodTree, Closed, ValidateTree, InBounds, RecordBytes, Crc32.Checksum;
    PlanInBounds(mem, |image|, next);
    ValidateTreeMeaning(next);
  }

  /** A device large enough for two slots. */
  ghost predicate Usable(image: Image)
  {
    RECORD_AREA_START + 2 * RECORD_SECTORS <= |image| < U64_LIMIT
  }

  ghost predicate MountFinds(image: Image)
  {
    Usable(image) && (Candidate(image, 0).Some? || Candidate(image, 1).Some?)
  }

  ghost predicate NeverWritten(image: Image)
  {
    Usable(image) && Blank(image[0]) && Blank(image[1])
  }

  ghost predicate MountFails(image: Image)
  {
    Usable(image) && !MountFinds(image) && !NeverWritten(image)
  }

  lemma WhatMounts(image: Image)
    requires Usable(image)
    ensures MountFinds(image) <==> Load(image).Ok? && Load(image).value.Some?
    ensures MountFails(image) <==> Load(image) == Err(CorruptSuperblocks)
    ensures NeverWritten(image) <==> Load(image) == Ok(None)
  {
    hide Candidate, Blank;
    LoadMeaning(image);
    if NeverWritten(image) {
      BlankIsNoCandidate(image, 0);
      BlankIsNoCandidate(image, 1);
    }
  }

  /** Mounts what the device holds, or formats a device that was never written. A read error
      can make it mount the older of two snapshots, but never format. */
  method MountOrFormat(device: Device) returns (r: Result<CodexFs, FsError>, ghost first: bool, ghost second: bool)
    requires device.pending == [] && |device.durable| < U64_LIMIT
    modifies device
    ensures !device.supportsFlush ==> r == Err(FlushUnsupported)
    ensures r.Ok? ==> r.value.device == device && fresh(r.value) && 2 <= |old(device.durable)|
    ensures r.Ok? && r.value.mountState == Existing ==>
      && device.State() == old(device.State())
      && Geometry(r.value.Memory(), |device.durable|)
      && var found := LoadSeeing(device.durable, first, second);
         found.Ok? && found.value.Some? && Agrees(found.value.value, r.value.Memory())
    ensures r.Ok? && r.value.mountState == Existing && device.readsWork ==>
      Some(r.value.Memory()) == Mounted(device.durable, r.value.Memory())
    ensures r.Ok? && r.value.mountState == Formatted ==>
      && r.value.Valid() && r.value.files == [] && r.value.generation == 1
      && Blank(old(device.durable)[0]) && Blank(old(device.durable)[1])
    ensures forall mem: Mem :: Live(old(device.durable), mem) ==> device.State() == old(device.State())
    ensures forall mem: Mem :: Live(old(device.durable), mem) && r.Ok? ==>
      && r.value.mountState == Existing
      && (r.value.Memory() == mem || r.value.generation < mem.generation)
    ensures forall mem: Mem :: Live(old(device.durable), mem) && device.supportsFlush && device.readsWork ==>
      r.Ok? && r.value.mountState == Existing && r.value.Memory() == mem
    ensures device.supportsFlush && |old(device.durable)| < RECORD_AREA_START + 2 * RECORD_SECTORS ==>
      r == Err(DeviceTooSmall)
    ensures device.supportsFlush && device.readsWork && MountFinds(old(device.durable)) ==>
      r.Ok? && r.value.mountState == Existing
    ensures device.supportsFlush && device.readsWork && MountFails(old(device.durable)) ==> r == Err(CorruptSuperblocks)
    ensures device.supportsFlush && device.readsWork && device.writesWork && NeverWritten(old(device.durable)) ==>
      r.Ok? && r.value.mountState == Formatted
  {
    hide Live, Load, LoadSeeing, Blank, Unformatted, InStep, Planned, MountFinds, MountFails, NeverWritten;
    first, second := true, true;
    TooSmallIsNothing(device.durable);
    if !device.supportsFlush {
      return Err(FlushUnsupported), first, second;
    }
    var span := RecordSlotSpan(|device.durable|);
    if span.Err? {
      TooSmallToLive(device.durable);
      return Err(span.error), first, second;
    }
    SlotsFitDevice(|device.durable|);
    var slots := RecordSlotCount(|device.durable|, span.value);
    var loaded;
    loaded, first, second := LoadLatestSnapshot(device);
    LiveIsFound(device.durable);
    WhatMounts(device.durable);
    if loaded.Err? {
      return Err(loaded.error), first, second;
    }
    if loaded.value.Some? {
      var snapshot := loaded.value.value;
      var sb := snapshot.superblock;
      var fs := new CodexFs(device, snapshot.files, sb.generation, slots.value, span.value,
                            sb.recordStart, sb.recordSectors, Existing);
      MountMatches(device.durable, first, second, snapshot, fs.Memory());
      return Ok(fs), first, second;
    }
    BlankToFormat(device.durable, Mem([], 0, slots.value, span.value, 0, 0), first, second);
    BlankIsNotLive(device.durable);
    r := Format(device, slots.value, span.value);
  }

  /** Commits the empty tree to a device that was never written. */
  method Format(device: Device, slots: u64, span: u32) returns (r: Result<CodexFs, FsError>)
    requires device.pending == [] && InStep(device.durable, Mem([], 0, slots, span, 0, 0))
    modifies device
    ensures r.Ok? ==>
      && r.value.device == device && fresh(r.value) && r.value.mountState == Formatted
      && r.value.Valid() && r.value.files == [] && r.value.generation == 1
    ensures device.writesWork ==> r.Ok?
  {
    hide Live, InStep, TreeOk, PlanCommit, ApplyAll, CommitOps, Acceptable;
    ghost var mem := Mem([], 0, slots, span, 0, 0);
    SlotsPositive(device.durable, mem);
    EmptyFits(device.durable, mem);
    var fs := new CodexFs(device, [], 0, slots, span, 0, 0, Formatted);
    var outcome := fs.CommitFiles([]);
    if outcome.Fail? {
      return Err(outcome.error);
    }
    EmptyTreeOk();
    r := Ok(fs);
  }

  lemma TooSmallIsNothing(image: Image)
    ensures !Usable(image) ==> !MountFinds(image) && !MountFails(image) && !NeverWritten(image)
  {
  }

  lemma EmptyFits(image: Image, mem: Mem)
    requires InStep(image, mem) && mem.generation == 0 && mem.slots > 0
    ensures |image| < U64_LIMIT && PlanCommit(mem, |image|, []).Ok?
  {
    hide PlanCommit, Candidate, Blank, RecordSlotCount, DecodeSuperblock;
    SlotsPositive(image, mem);
    CommitIff(image, mem, []);
  }

  lemma EmptyTreeOk()
    ensures TreeOk([])
  {
  }

  lemma TooSmallToLive(image: Image)
    requires |image| < U64_LIMIT && RecordSlotSpan(|image|).Err?
    ensures forall mem: Mem :: !Live(image, mem)
  {
    hide Candidate, DecodeSuperblock;
  }

  lemma BlankToFormat(image: Image, mem: Mem, first: bool, second: bool)
    requires 2 <= |image| < U64_LIMIT && LoadSeeing(image, first, second) == Ok(None) && Geometry(mem, |image|)
    requires mem == Mem([], 0, mem.slots, mem.span, 0, 0)
    ensures InStep(image, mem) && Blank(image[0]) && Blank(image[1])
  {
    hide Candidate, Geometry, Blank, Live;
  }

  /** Why a mount with working reads does not fail or format a live device. */
  lemma LiveIsFound(image: Image)
    requires 2 <= |image| < U64_LIMIT
    ensures forall mem: Mem :: Live(image, mem) ==> Load(image).Ok? && Load(image).value.Some?
  {
    hide Load, Live;
    forall mem: Mem | Live(image, mem)
      ensures Load(image).Ok? && Load(image).value.Some?
    {
      LiveLoads(image, mem);
    }
  }

  /** What a mount has in memory after finding `snapshot`. */
  lemma MountMatches(image: Image, first: bool, second: bool, snapshot: Snapshot, got: Mem)
    requires 2 <= |image| < U64_LIMIT && Geometry(got, |image|)
    requires LoadSeeing(image, first, second) == Ok(Some(snapshot)) && Agrees(snapshot, got)
    ensures forall mem: Mem :: Live(image, mem) ==> got == mem || got.generation < mem.generation
    ensures Load(image) == Ok(Some(snapshot)) ==> forall mem: Mem :: Live(image, mem) ==> got == mem
  {
    hide Load, Live, LoadSeeing, Seen;
    forall mem: Mem | Live(image, mem)
      ensures got == mem || got.generation < mem.generation
      ensures Load(image) == Ok(Some(snapshot)) ==> got == mem
    {
      LiveGeometry(image, mem);
      LiveLoads(image, mem);
      UnreadableFallsBack(image, mem, first, second);
    }
  }

  lemma LiveGeometry(image: Image, mem: Mem)
    requires Live(image, mem)
    ensures 2 <= |image| < U64_LIMIT && Geometry(mem, |image|)
  {
  }

  /** A mount that finds nothing did so on two blank superblocks, so nothing was lost. */
  lemma BlankIsNotLive(image: Image)
    requires 2 <= |image| < U64_LIMIT && Blank(image[0]) && Blank(image[1])
    ensures forall mem: Mem :: !Live(image, mem)
  {
    hide Blank, Live;
    forall mem: Mem | Live(image, mem)
      ensures false
    {
      LiveHasSuperblock(image, mem);
    }
  }

  lemma LiveHasSuperblock(image: Image, mem: Mem)
    requires Live(image, mem)
    ensures !Blank(image[SuperSector(mem.generation)])
  {
    hide Blank, DecodeSuperblock, ReadRecord, Geometry, ActiveIn;
    SuperblockNotBlank(image, SuperSector(mem.generation));
  }
}
