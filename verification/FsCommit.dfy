/** Mounting and committing CodexFS snapshots on a disk that may lose power.

    A disk keeps its flushed sectors and any part of what was written since the
    last flush; one sector is written whole or not at all. */
module FsCommit {
  import opened Bytes
  import opened Wrappers
  import opened FsTree
  import opened FsRecord
  import opened FsSuperblock
  import Crc32
  import opened Arith

  type Image = seq<Sector>

  // ----- Mounting

  datatype Snapshot = Snapshot(superblock: Superblock, files: seq<Entry>)

  function ReadSectors(image: Image, start: nat, count: nat): (bytes: seq<byte>)
    requires start + count <= |image|
    ensures |bytes| == count * SECTOR_SIZE
  {
    if count == 0 then [] else ReadSectors(image, start, count - 1) + image[start + count - 1]
  }

  function ReadRecord(image: Image, sb: Superblock): (r: Result<seq<Entry>, FsError>)
    requires sb.recordStart + sb.recordSectors <= |image|
  {
    var record := ReadSectors(image, sb.recordStart, sb.recordSectors);
    if Crc32.Checksum(record) != sb.recordCrc then Err(CorruptRecord)
    else RecordContents(record, sb.generation)
  }

  /** The snapshot that the superblock in sector `s` leads to, if it is intact. */
  function Candidate(image: Image, s: nat): (r: Option<Snapshot>)
    requires s < |image| < U64_LIMIT
  {
    var decoded := DecodeSuperblock(image[s], |image|);
    if decoded.Err? then None
    else
      var files := ReadRecord(image, decoded.value);
      if files.Err? then None else Some(Snapshot(decoded.value, files.value))
  }

  function Newer(first: Option<Snapshot>, second: Option<Snapshot>): Option<Snapshot>
  {
    if second.None? then first
    else if first.None? || second.value.superblock.generation > first.value.superblock.generation then second
    else first
  }

  predicate Blank(sector: Sector)
  {
    forall i :: 0 <= i < SECTOR_SIZE ==> sector[i] == 0
  }

  /** The newest intact snapshot; none on a device whose superblocks were never written. */
  function Load(image: Image): (r: Result<Option<Snapshot>, FsError>)
    requires 2 <= |image| < U64_LIMIT
  {
    var best := Newer(Candidate(image, 0), Candidate(image, 1));
    if best.None? && !(Blank(image[0]) && Blank(image[1])) then Err(CorruptSuperblocks) else Ok(best)
  }

  /** A superblock whose record cannot be read counts for nothing. */
  function Seen(image: Image, s: nat, readable: bool): Option<Snapshot>
    requires s < |image| < U64_LIMIT
  {
    if readable then Candidate(image, s) else None
  }

  /** What a mount finds when it can read both superblocks, but not necessarily their records. */
  function LoadSeeing(image: Image, first: bool, second: bool): Result<Option<Snapshot>, FsError>
    requires 2 <= |image| < U64_LIMIT
  {
    var best := Newer(Seen(image, 0, first), Seen(image, 1, second));
    if best.None? && !(Blank(image[0]) && Blank(image[1])) then Err(CorruptSuperblocks) else Ok(best)
  }

  // ----- The mounted file system and the choice of a record slot

  datatype Mem = Mem(
    files: seq<Entry>,
    generation: u64,
    slots: u64,
    span: u32,
    activeStart: u64,
    activeSectors: u32)

  function SlotStart(slot: nat, span: nat): nat
  {
    RECORD_AREA_START + slot * span
  }

  /** The first slot from `attempt` on, counted from the generation number, that
      lies inside the device and off the active record. */
  function SelectFrom(mem: Mem, n: u64, generation: u64, sectors: u32, attempt: nat): (r: Result<u64, FsError>)
    requires mem.slots > 0
    ensures r.Ok? ==> RECORD_AREA_START <= r.value && r.value + sectors <= n
    ensures r.Ok? && mem.activeSectors != 0 ==> !RangesOverlap(r.value, sectors, mem.activeStart, mem.activeSectors)
    ensures r.Ok? ==> exists slot: nat :: slot < mem.slots && r.value == SlotStart(slot, mem.span)
    decreases mem.slots - attempt
  {
    if attempt >= mem.slots then Err(SnapshotTooLarge)
    else if generation + attempt >= U64_LIMIT then Err(ArithmeticOverflow)
    else
      var slot := (generation + attempt) % mem.slots;
      var start := SlotStart(slot, mem.span);
      if start + sectors >= U64_LIMIT then Err(ArithmeticOverflow)
      else if start + sectors > n then SelectFrom(mem, n, generation, sectors, attempt + 1)
      else if mem.activeSectors != 0 && mem.activeStart + mem.activeSectors >= U64_LIMIT then Err(ArithmeticOverflow)
      else if mem.activeSectors != 0 && RangesOverlap(start, sectors, mem.activeStart, mem.activeSectors) then
        SelectFrom(mem, n, generation, sectors, attempt + 1)
      else Ok(start)
  }

  /** The slot geometry of a device with `n` sectors. */
  ghost predicate Geometry(mem: Mem, n: u64)
  {
    && RecordSlotSpan(n) == Ok(mem.span)
    && RecordSlotCount(n, mem.span) == Ok(mem.slots)
  }

  /** The active record starts at slot `slot` and stays inside it. */
  ghost predicate ActiveIn(mem: Mem, slot: nat)
  {
    slot < mem.slots && mem.activeStart == SlotStart(slot, mem.span) && 0 < mem.activeSectors <= mem.span
  }

  lemma SlotOrder(s: nat, t: nat, span: nat)
    requires s < t
    ensures SlotStart(s, span) + span <= SlotStart(t, span)
  {
    MulMono(s + 1, t, span);
    assert (s + 1) * span == s * span + span;
  }

  lemma SlotInside(mem: Mem, n: u64, slot: nat)
    requires Geometry(mem, n) && slot < mem.slots
    ensures SlotStart(slot, mem.span) + mem.span <= n
  {
    SlotsFitDevice(n);
    if slot + 1 < mem.slots {
      SlotOrder(slot + 1, mem.slots, mem.span);
    }
    SlotOrder(slot, slot + 1, mem.span);
  }

  lemma NextSlotDiffers(g: nat, slots: nat)
    requires slots >= 2
    ensures g % slots != (g + 1) % slots
  {
    var q, r := g / slots, g % slots;
    assert g == slots * q + r;
    if r + 1 < slots {
      DivModUnique(g + 1, slots, q, r + 1);
    } else {
      assert g + 1 == slots * (q + 1);
      DivModUnique(g + 1, slots, q + 1, 0);
    }
  }

  /** On a device formatted at its present size a record that fits a slot always
      finds one, with a single exception: at the last generation number, when
      the generation's own slot is the active one. */
  lemma SlotAlwaysFound(mem: Mem, n: u64, generation: u64, sectors: u32, active: nat)
    requires Geometry(mem, n) && 0 < sectors <= mem.span
    requires mem.activeSectors == 0 || ActiveIn(mem, active)
    ensures SelectFrom(mem, n, generation, sectors, 0).Ok? <==>
      !(mem.activeSectors != 0 && generation % mem.slots == active && generation == U64_LIMIT - 1)
  {
    hide RecordSlotSpan, RecordSlotCount, SlotStart;
    SlotsFitDevice(n);
    var first := generation % mem.slots;
    SlotInside(mem, n, first);
    if mem.activeSectors != 0 {
      SlotInside(mem, n, active);
      if first == active {
        if generation < U64_LIMIT - 1 {
          var second := (generation + 1) % mem.slots;
          NextSlotDiffers(generation, mem.slots);
          SlotInside(mem, n, second);
          ApartIsFree(mem, second, active, sectors);
          assert SelectFrom(mem, n, generation, sectors, 1).Ok?;
        }
      } else {
        ApartIsFree(mem, first, active, sectors);
      }
    }
  }

  lemma ApartIsFree(mem: Mem, slot: nat, active: nat, sectors: nat)
    requires ActiveIn(mem, active) && slot != active && sectors <= mem.span
    ensures !RangesOverlap(SlotStart(slot, mem.span), sectors, mem.activeStart, mem.activeSectors)
  {
    if slot < active {
      SlotOrder(slot, active, mem.span);
    } else {
      SlotOrder(active, slot, mem.span);
    }
  }

  ghost predicate FreeSlot(mem: Mem, slot: nat, sectors: nat)
  {
    mem.activeSectors == 0 || !RangesOverlap(SlotStart(slot, mem.span), sectors, mem.activeStart, mem.activeSectors)
  }

  ghost predicate FreeAttempt(mem: Mem, generation: nat, sectors: nat, a: nat)
    requires mem.slots > 0
  {
    FreeSlot(mem, (generation + a) % mem.slots, sectors)
  }

  lemma {:induction false} SelectFindsAnAttempt(mem: Mem, n: u64, generation: u64, sectors: u32, attempt: nat)
    requires Geometry(mem, n) && sectors <= mem.span && generation + mem.slots <= U64_LIMIT
    requires mem.slots > 0 && mem.activeStart + mem.activeSectors <= n && attempt <= mem.slots
    ensures SelectFrom(mem, n, generation, sectors, attempt).Ok? <==>
      exists a :: attempt <= a < mem.slots && FreeAttempt(mem, generation, sectors, a)
    decreases mem.slots - attempt
  {
    hide RecordSlotSpan, RecordSlotCount, SlotStart;
    if attempt < mem.slots {
      var slot := (generation + attempt) % mem.slots;
      SlotInside(mem, n, slot);
      SelectFindsAnAttempt(mem, n, generation, sectors, attempt + 1);
      OneAttempt(mem, n, generation, sectors, attempt, slot);
      hide SelectFrom;
      if FreeAttempt(mem, generation, sectors, attempt) {
      } else {
        assert forall a :: attempt <= a < mem.slots && FreeAttempt(mem, generation, sectors, a) ==> attempt + 1 <= a;
      }
    }
  }

  lemma OneAttempt(mem: Mem, n: u64, generation: u64, sectors: u32, attempt: nat, slot: nat)
    requires attempt < mem.slots && generation + attempt < U64_LIMIT && slot == (generation + attempt) % mem.slots
    requires SlotStart(slot, mem.span) + sectors <= n && mem.activeStart + mem.activeSectors <= n
    ensures FreeAttempt(mem, generation, sectors, attempt) ==> SelectFrom(mem, n, generation, sectors, attempt).Ok?
    ensures !FreeAttempt(mem, generation, sectors, attempt) ==>
      SelectFrom(mem, n, generation, sectors, attempt) == SelectFrom(mem, n, generation, sectors, attempt + 1)
  {
    hide SlotStart;
  }

  /** Counting up from the generation reaches every slot. */
  lemma AttemptFor(generation: nat, slots: nat, slot: nat) returns (a: nat)
    requires slot < slots
    ensures a < slots && (generation + a) % slots == slot
  {
    var q, r := generation / slots, generation % slots;
    assert generation == slots * q + r;
    if slot >= r {
      a := slot - r;
      DivModUnique(generation + a, slots, q, slot);
    } else {
      a := slot - r + slots;
      assert slots * (q + 1) == slots * q + slots;
      DivModUnique(generation + a, slots, q + 1, slot);
    }
  }

  /** At the last generation number, with the active record in that generation's own slot,
      the other slot is free and the snapshot is refused all the same. */
  lemma LastGenerationRefuses()
    ensures var mem := Mem([], U64_LIMIT - 2, 2, 196, 204, 64);
      && Geometry(mem, 400) && ActiveIn(mem, 1) && !RangesOverlap(SlotStart(0, 196), 64, 204, 64)
      && SelectFrom(mem, 400, U64_LIMIT - 1, 64, 0) == Err(ArithmeticOverflow)
  {
    var mem := Mem([], U64_LIMIT - 2, 2, 196, 204, 64);
    assert SlotStart(0, 196) == 8 && SlotStart(1, 196) == 204;
    assert (U64_LIMIT - 1) % 2 == 1;
    assert SelectFrom(mem, 400, U64_LIMIT - 1, 64, 1) == Err(ArithmeticOverflow);
  }

  /** Whatever the size the device was formatted at, a slot is found exactly when
      one of the slots is off the active record. */
  lemma SlotFoundIffFree(mem: Mem, n: u64, generation: u64, sectors: u32)
    requires Geometry(mem, n) && sectors <= mem.span && generation + mem.slots <= U64_LIMIT
    requires mem.slots > 0 && mem.activeStart + mem.activeSectors <= n
    ensures SelectFrom(mem, n, generation, sectors, 0).Ok? <==>
      exists slot: nat :: slot < mem.slots && FreeSlot(mem, slot, sectors)
  {
    hide FreeSlot, SelectFrom, RecordSlotCount, RecordSlotSpan;
    SelectFindsAnAttempt(mem, n, generation, sectors, 0);
    if exists slot: nat :: slot < mem.slots && FreeSlot(mem, slot, sectors) {
      var slot: nat :| slot < mem.slots && FreeSlot(mem, slot, sectors);
      var a := AttemptFor(generation, mem.slots, slot);
      assert FreeAttempt(mem, generation, sectors, a);
    }
  }

  /** After a device has grown, the active record may lie across both slots of
      the new division, and a record that fits a slot is refused. */
  lemma GrownDeviceMayRefuse()
    ensures var mem := Mem([], 3, 2, 196, 154, 64);
      && Geometry(mem, 400)
      && SelectFrom(mem, 400, 4, 150, 0) == Err(SnapshotTooLarge)
  {
    var mem := Mem([], 3, 2, 196, 154, 64);
    assert SlotStart(0, 196) == 8 && SlotStart(1, 196) == 204;
    assert SelectFrom(mem, 400, 4, 150, 2) == Err(SnapshotTooLarge);
    assert SelectFrom(mem, 400, 4, 150, 1) == Err(SnapshotTooLarge);
  }

  // ----- Disks that lose power

  datatype Write = Write(sector: nat, data: Sector)

  datatype Disk = Disk(durable: Image, pending: seq<Write>)

  datatype Op = WriteOp(write: Write) | FlushOp

  /** The image after the writes have all reached the medium, in order. */
  function Settle(image: Image, writes: seq<Write>): (r: Image)
    ensures |r| == |image|
  {
    if writes == [] then image
    else
      var before := Settle(image, writes[..|writes| - 1]);
      var w := writes[|writes| - 1];
      if w.sector < |image| then before[w.sector := w.data] else before
  }

  function Apply(d: Disk, op: Op): Disk
  {
    match op
    case WriteOp(w) => Disk(d.durable, d.pending + [w])
    case FlushOp => Disk(Settle(d.durable, d.pending), [])
  }

  function ApplyAll(d: Disk, ops: seq<Op>): Disk
  {
    if ops == [] then d else Apply(ApplyAll(d, ops[..|ops| - 1]), ops[|ops| - 1])
  }

  /** Power is lost: every sector holds its flushed contents or one of the
      contents written to it since. */
  ghost predicate CrashImage(d: Disk, image: Image)
  {
    && |image| == |d.durable|
    && forall s :: 0 <= s < |image| ==>
      image[s] == d.durable[s] || exists i :: 0 <= i < |d.pending| && d.pending[i] == Write(s, image[s])
  }

  // ----- A commit as a sequence of device operations

  datatype Plan = Plan(superblock: Superblock, record: seq<byte>)

  ghost predicate ValidPlan(plan: Plan, n: nat)
  {
    && |plan.record| == plan.superblock.recordSectors * SECTOR_SIZE
    && plan.superblock.recordStart + plan.superblock.recordSectors <= n
  }

  function SectorOf(record: seq<byte>, i: nat): (s: Sector)
    requires (i + 1) * SECTOR_SIZE <= |record|
  {
    record[i * SECTOR_SIZE..(i + 1) * SECTOR_SIZE]
  }

  function RecordWrites(record: seq<byte>, start: nat, count: nat): (ws: seq<Write>)
    requires count * SECTOR_SIZE <= |record|
    ensures |ws| == count
    ensures forall i :: 0 <= i < count ==> ws[i] == Write(start + i, SectorOf(record, i))
  {
    seq(count, i requires 0 <= i < count => Write(start + i, SectorOf(record, i)))
  }

  function SuperSector(generation: nat): nat
  {
    if generation % 2 == 0 then 0 else 1
  }

  function Writes(ws: seq<Write>): (ops: seq<Op>)
    ensures |ops| == |ws|
    ensures forall i :: 0 <= i < |ws| ==> ops[i] == WriteOp(ws[i])
  {
    seq(|ws|, i requires 0 <= i < |ws| => WriteOp(ws[i]))
  }

  function SuperWrite(sb: Superblock): Write
  {
    Write(SuperSector(sb.generation), SuperblockBytes(sb))
  }

  function CommitOps(plan: Plan): (ops: seq<Op>)
    requires |plan.record| == plan.superblock.recordSectors * SECTOR_SIZE
    ensures |ops| == plan.superblock.recordSectors + 3
  {
    Writes(RecordWrites(plan.record, plan.superblock.recordStart, plan.superblock.recordSectors))
    + [FlushOp, WriteOp(SuperWrite(plan.superblock)), FlushOp]
  }

  /** What committing `files` would do, or why it is refused before any write. */
  function PlanCommit(mem: Mem, n: u64, files: seq<Entry>): (r: Result<Plan, FsError>)
    requires mem.slots > 0
    ensures r.Ok? ==> ValidPlan(r.value, n)
    ensures r.Ok? ==> r.value.superblock.generation == mem.generation + 1
  {
    if mem.generation + 1 >= U64_LIMIT then Err(ArithmeticOverflow)
    else if |files| > MAX_FILES then Err(TooManyFiles)
    else if ValidateTree(files, true).Fail? then Err(ValidateTree(files, true).error)
    else if HEADER_BYTES + PayloadSize(files) + 511 >= U64_LIMIT then Err(ArithmeticOverflow)
    else if RecordLength(files) > MAX_RECORD_BYTES then Err(SnapshotTooLarge)
    else
      var generation := mem.generation + 1;
      var record := RecordBytes(generation, files);
      var sectors := |record| / SECTOR_SIZE;
      if sectors > mem.span then Err(SnapshotTooLarge)
      else
        var start :- SelectFrom(mem, n, generation, sectors, 0);
        Ok(Plan(Superblock(generation, start, sectors, |record|, Crc32.Checksum(record), n), record))
  }

  /** The mounted state once the commit is through. */
  function Committed(mem: Mem, plan: Plan, files: seq<Entry>): Mem
  {
    mem.(files := files, generation := plan.superblock.generation,
         activeStart := plan.superblock.recordStart, activeSectors := plan.superblock.recordSectors)
  }
}
