/** Superblocks of CodexFS and the division of the device into record slots. */
module FsSuperblock {
  import opened Bytes
  import opened Wrappers
  import opened FsTree
  import opened FsRecord
  import Crc32

  const SUPER_CRC_OFFSET: nat := 44
  const RECORD_AREA_START: nat := 8
  const REST_BYTES: nat := 456

  /** "CDXFS1" and two zero bytes. */
  const SUPERBLOCK_MAGIC: seq<byte> := [0x43, 0x44, 0x58, 0x46, 0x53, 0x31, 0, 0]

  type Sector = s: seq<byte> | |s| == SECTOR_SIZE witness Zeros(512)

  datatype Superblock = Superblock(
    generation: u64,
    recordStart: u64,
    recordSectors: u32,
    recordBytes: u32,
    recordCrc: u32,
    capacitySectors: u64)

  function SuperFront(version: u32, sb: Superblock): (s: seq<byte>)
    ensures |s| == SUPER_CRC_OFFSET
  {
    SUPERBLOCK_MAGIC + LeU32(version) + LeU32(64) + LeU64(sb.generation) + LeU64(sb.recordStart)
    + LeU32(sb.recordSectors) + LeU32(sb.recordBytes) + LeU32(sb.recordCrc)
  }

  /** The sector with `crc` in the checksum field and `rest` behind the fields. */
  function SuperFields(version: u32, sb: Superblock, crc: u32, rest: seq<byte>): (s: Sector)
    requires |rest| == REST_BYTES
  {
    SuperFront(version, sb) + LeU32(crc) + LeU64(sb.capacitySectors) + rest
  }

  /** A sector of the given version with the checksum of its contents. */
  function SealedBytes(version: u32, sb: Superblock, rest: seq<byte>): (s: Sector)
    requires |rest| == REST_BYTES
  {
    SuperFields(version, sb, Crc32.Checksum(SuperFields(version, sb, 0, rest)), rest)
  }

  function SuperblockBytes(sb: Superblock): (s: Sector)
  {
    SealedBytes(FORMAT_VERSION, sb, Zeros(REST_BYTES))
  }

  predicate ValidRecordLayout(version: u32, recordSectors: u32, recordBytes: u32)
  {
    && 0 < recordSectors <= MAX_RECORD_SECTORS
    && HEADER_BYTES <= recordBytes <= MAX_RECORD_BYTES
    && recordBytes == recordSectors * SECTOR_SIZE
    && (version >= 3 || (recordSectors == RECORD_SECTORS && recordBytes == RECORD_BYTES))
  }

  function FieldsOf(sector: Sector): (sb: Superblock)
  {
    Superblock(U64At(sector, 16), U64At(sector, 24), U32At(sector, 32), U32At(sector, 36), U32At(sector, 40),
               U64At(sector, 48))
  }

  /** Magic, version, header size, record layout and checksum. */
  predicate Sealed(sector: Sector)
  {
    && sector[0..8] == SUPERBLOCK_MAGIC
    && MIN_FORMAT_VERSION <= U32At(sector, 8) <= FORMAT_VERSION
    && U32At(sector, 12) == 64
    && ValidRecordLayout(U32At(sector, 8), U32At(sector, 32), U32At(sector, 36))
    && Crc32.Checksum(Put(sector, SUPER_CRC_OFFSET, LeU32(0))) == U32At(sector, SUPER_CRC_OFFSET)
  }

  function DecodeSuperblock(sector: Sector, actualCapacity: u64): (r: Result<Superblock, FsError>)
    ensures r.Ok? ==> InBounds(r.value, actualCapacity)
  {
    if !Sealed(sector) then Err(CorruptSuperblocks)
    else
      var sb := FieldsOf(sector);
      var end := sb.recordStart + sb.recordSectors;
      if end >= U64_LIMIT then Err(ArithmeticOverflow)
      else if sb.generation == 0 || sb.recordStart < RECORD_AREA_START || end > actualCapacity then
        Err(CorruptSuperblocks)
      else if U32At(sector, 8) < 3 && (sb.recordStart - RECORD_AREA_START) % RECORD_SECTORS != 0 then
        Err(CorruptSuperblocks)
      else if sb.capacitySectors > actualCapacity then Err(CorruptSuperblocks)
      else Ok(sb)
  }

  /** What a superblock must say to be believed on a device of the given size. */
  predicate InBounds(sb: Superblock, actualCapacity: u64)
  {
    && sb.generation > 0
    && RECORD_AREA_START <= sb.recordStart
    && sb.recordStart + sb.recordSectors <= actualCapacity
    && sb.capacitySectors <= actualCapacity
    && ValidRecordLayout(3, sb.recordSectors, sb.recordBytes)
  }

  lemma SuperLayout(version: u32, sb: Superblock, crc: u32, rest: seq<byte>)
    requires |rest| == REST_BYTES
    ensures var s := SuperFields(version, sb, crc, rest);
      && s[0..8] == SUPERBLOCK_MAGIC && U32At(s, 8) == version && U32At(s, 12) == 64
      && FieldsOf(s) == sb && U32At(s, SUPER_CRC_OFFSET) == crc
  {
    hide U32At, U64At, LeU32, LeU64;
    var s := SuperFields(version, sb, crc, rest);
    var first := SUPERBLOCK_MAGIC + LeU32(version) + LeU32(64) + LeU64(sb.generation) + LeU64(sb.recordStart);
    Fields5(SUPERBLOCK_MAGIC, LeU32(version), LeU32(64), LeU64(sb.generation), LeU64(sb.recordStart),
            8, 12, 16, 24, 32);
    var sectors, bytes, rcrc := LeU32(sb.recordSectors), LeU32(sb.recordBytes), LeU32(sb.recordCrc);
    var back := LeU64(sb.capacitySectors) + rest;
    Fields5(LeU32(crc), LeU64(sb.capacitySectors), rest, [], [], 4, 12, 468, 468, 468);
    assert LeU32(crc) + LeU64(sb.capacitySectors) + rest + [] + [] == LeU32(crc) + back;
    var tail := LeU32(crc) + back;
    Fields5(first, sectors, bytes, rcrc, tail, 32, 36, 40, 44, 512);
    assert s == first + sectors + bytes + rcrc + tail;
    Slice(s, 0, 32, 0, 8);
    Slice(s, 0, 32, 8, 4);
    Slice(s, 0, 32, 12, 4);
    Slice(s, 0, 32, 16, 8);
    Slice(s, 0, 32, 24, 8);
    Slice(s, 44, 468, 0, 4);
    Slice(s, 44, 468, 4, 8);
    U32RoundTrip(s, 8, version);
    U32RoundTrip(s, 12, 64);
    U64RoundTrip(s, 16, sb.generation);
    U64RoundTrip(s, 24, sb.recordStart);
    U32RoundTrip(s, 32, sb.recordSectors);
    U32RoundTrip(s, 36, sb.recordBytes);
    U32RoundTrip(s, 40, sb.recordCrc);
    U32RoundTrip(s, 44, crc);
    U64RoundTrip(s, 48, sb.capacitySectors);
  }

  lemma SuperCleared(version: u32, sb: Superblock, crc: u32, rest: seq<byte>)
    requires |rest| == REST_BYTES
    ensures Put(SuperFields(version, sb, crc, rest), SUPER_CRC_OFFSET, LeU32(0)) == SuperFields(version, sb, 0, rest)
  {
    hide LeU32, LeU64, SuperFront;
    var a := SuperFront(version, sb);
    var b := LeU64(sb.capacitySectors) + rest;
    assert SuperFields(version, sb, crc, rest) == a + LeU32(crc) + b;
    assert SuperFields(version, sb, 0, rest) == a + LeU32(0) + b;
    assert Put(a + LeU32(crc) + b, SUPER_CRC_OFFSET, LeU32(0)) == a + LeU32(0) + b;
  }

  lemma SuperRebuilt(sector: Sector)
    requires sector[0..8] == SUPERBLOCK_MAGIC && U32At(sector, 12) == 64
    ensures sector == SuperFields(U32At(sector, 8), FieldsOf(sector), U32At(sector, SUPER_CRC_OFFSET), sector[56..512])
  {
    hide U32At, U64At, LeU32, LeU64;
    LittleEndian32(sector, 8);
    LittleEndian32(sector, 12);
    LittleEndian64(sector, 16);
    LittleEndian64(sector, 24);
    LittleEndian32(sector, 32);
    LittleEndian32(sector, 36);
    LittleEndian32(sector, 40);
    LittleEndian32(sector, 44);
    LittleEndian64(sector, 48);
    assert sector[0..32] == sector[0..8] + sector[8..12] + sector[12..16] + sector[16..24] + sector[24..32];
    assert sector[0..44] == sector[0..32] + sector[32..36] + sector[36..40] + sector[40..44];
    assert sector == sector[0..44] + sector[44..48] + sector[48..56] + sector[56..512];
  }

  /** What a superblock of the given version must say to be believed. */
  predicate Believed(version: u32, sb: Superblock, actualCapacity: u64)
  {
    && MIN_FORMAT_VERSION <= version <= FORMAT_VERSION
    && InBounds(sb, actualCapacity) && ValidRecordLayout(version, sb.recordSectors, sb.recordBytes)
    && (version < 3 ==> (sb.recordStart - RECORD_AREA_START) % RECORD_SECTORS == 0)
  }

  /** A sealed sector is read back exactly when its contents are believable for its version. */
  lemma SealedIff(version: u32, sb: Superblock, rest: seq<byte>, actualCapacity: u64)
    requires |rest| == REST_BYTES
    ensures DecodeSuperblock(SealedBytes(version, sb, rest), actualCapacity) == Ok(sb) <==>
      Believed(version, sb, actualCapacity)
  {
    hide Crc32.Checksum, SuperFields, U32At, U64At, LeU32, Put;
    var crc := Crc32.Checksum(SuperFields(version, sb, 0, rest));
    SuperLayout(version, sb, crc, rest);
    SuperCleared(version, sb, crc, rest);
    var sector := SealedBytes(version, sb, rest);
    assert U32At(sector, 32) == FieldsOf(sector).recordSectors == sb.recordSectors;
    assert U32At(sector, 36) == FieldsOf(sector).recordBytes == sb.recordBytes;
    hide FieldsOf;
    assert Sealed(sector) <==>
      MIN_FORMAT_VERSION <= version <= FORMAT_VERSION && ValidRecordLayout(version, sb.recordSectors, sb.recordBytes);
  }

  /** A written superblock is read back exactly when its contents are in bounds. */
  lemma SuperblockRoundTrip(sb: Superblock, actualCapacity: u64)
    ensures DecodeSuperblock(SuperblockBytes(sb), actualCapacity) == Ok(sb) <==> InBounds(sb, actualCapacity)
  {
    hide DecodeSuperblock, SealedBytes;
    SealedIff(FORMAT_VERSION, sb, Zeros(REST_BYTES), actualCapacity);
  }

  /** A sector that carries a superblock, in any of the three versions and with anything behind it. */
  ghost predicate Carries(sector: Sector, actualCapacity: u64, sb: Superblock)
  {
    exists version: u32, rest: seq<byte> :: |rest| == REST_BYTES
      && sector == SealedBytes(version, sb, rest) && Believed(version, sb, actualCapacity)
  }

  /** Arbitrary sectors decode exactly to the believable superblock they carry under its checksum. */
  lemma SuperblockIff(sector: Sector, actualCapacity: u64, sb: Superblock)
    ensures DecodeSuperblock(sector, actualCapacity) == Ok(sb) <==> Carries(sector, actualCapacity, sb)
  {
    if DecodeSuperblock(sector, actualCapacity) == Ok(sb) {
      var version, crc, rest := U32At(sector, 8), U32At(sector, SUPER_CRC_OFFSET), sector[56..512];
      assert Sealed(sector) && FieldsOf(sector) == sb;
      hide DecodeSuperblock, Crc32.Checksum, SuperFields, U32At, U64At, LeU32, Put, FieldsOf, Believed;
      SuperRebuilt(sector);
      SuperCleared(version, sb, crc, rest);
      assert sector == SealedBytes(version, sb, rest);
      hide SealedBytes, Sealed;
      SealedIff(version, sb, rest, actualCapacity);
    } else if Carries(sector, actualCapacity, sb) {
      hide DecodeSuperblock, SealedBytes, Believed;
      var version: u32, rest: seq<byte> :| |rest| == REST_BYTES
        && sector == SealedBytes(version, sb, rest) && Believed(version, sb, actualCapacity);
      SealedIff(version, sb, rest, actualCapacity);
      assert false;
    }
  }

  lemma BlankIsNoSuperblock(actualCapacity: u64)
    ensures DecodeSuperblock(Zeros(SECTOR_SIZE), actualCapacity).Err?
  {
    hide Crc32.Checksum;
    assert Zeros(SECTOR_SIZE)[0..8][0] == 0;
  }

  // ----- Record slots

  function RecordSlotSpan(sectorCount: u64): (r: Result<u32, FsError>)
    ensures r.Ok? <==> sectorCount >= RECORD_AREA_START + 2 * RECORD_SECTORS
    ensures r.Ok? ==> RECORD_SECTORS <= r.value <= MAX_RECORD_SECTORS && RECORD_AREA_START + 2 * r.value <= sectorCount
    ensures r.Ok? ==> r.value == MAX_RECORD_SECTORS || RECORD_AREA_START + 2 * (r.value + 1) > sectorCount
  {
    if sectorCount < RECORD_AREA_START then Err(DeviceTooSmall)
    else
      var half := (sectorCount - RECORD_AREA_START) / 2;
      if half < RECORD_SECTORS then Err(DeviceTooSmall)
      else Ok(if MAX_RECORD_SECTORS < half then MAX_RECORD_SECTORS else half)
  }

  function RecordSlotCount(sectorCount: u64, span: u32): (r: Result<u64, FsError>)
    requires span > 0
  {
    if sectorCount < RECORD_AREA_START then Err(DeviceTooSmall)
    else
      var slots := (sectorCount - RECORD_AREA_START) / span;
      if slots < 2 then Err(DeviceTooSmall) else Ok(slots)
  }

  /** On every device that is large enough there are at least two slots, and the
      last of them still ends inside the device. */
  lemma SlotsFitDevice(sectorCount: u64)
    requires sectorCount >= RECORD_AREA_START + 2 * RECORD_SECTORS
    ensures var span := RecordSlotSpan(sectorCount).value;
      && RecordSlotCount(sectorCount, span).Ok?
      && RecordSlotCount(sectorCount, span).value >= 2
      && RECORD_AREA_START + RecordSlotCount(sectorCount, span).value * span <= sectorCount
      && sectorCount < RECORD_AREA_START + (RecordSlotCount(sectorCount, span).value + 1) * span
  {
    var span := RecordSlotSpan(sectorCount).value;
    var available := sectorCount - RECORD_AREA_START;
    var slots := available / span;
    assert available == span * slots + available % span;
    if slots < 2 {
      assert false;
    }
  }

  predicate RangesOverlap(leftStart: nat, leftSectors: nat, rightStart: nat, rightSectors: nat)
  {
    leftStart < rightStart + rightSectors && rightStart < leftStart + leftSectors
  }
}
