/** A damaged record is never mounted: any burst of up to four bytes inside the
    active record makes the mount fall back to the other superblock or refuse. */
module FsDamage {
  import opened Bytes
  import opened Wrappers
  import opened FsTree
  import opened FsRecord
  import opened FsSuperblock
  import opened FsCommit
  import opened FsCrash
  import Crc32

  /** `b` is `a` with the bytes `u` inside one sector replaced by `v`. */
  ghost predicate Burst(a: Image, b: Image, sector: nat, before: seq<byte>, u: seq<byte>, v: seq<byte>,
                        after: seq<byte>)
  {
    && sector < |a| && |u| == |v| <= 4 && u != v
    && a[sector] == before + u + after
    && |before + v + after| == SECTOR_SIZE
    && b == a[sector := before + v + after]
  }

  lemma {:induction false} ReadSplit(image: Image, start: nat, count: nat, k: nat)
    requires start + count <= |image| && k < count
    ensures ReadSectors(image, start, count)
      == ReadSectors(image, start, k) + image[start + k] + ReadSectors(image, start + k + 1, count - k - 1)
  {
    if k + 1 < count {
      ReadSplit(image, start, count - 1, k);
      var tail := ReadSectors(image, start + k + 1, count - k - 2);
      assert ReadSectors(image, start + k + 1, count - k - 1) == tail + image[start + count - 1];
      var front := ReadSectors(image, start, k) + image[start + k];
      assert front + tail + image[start + count - 1] == front + (tail + image[start + count - 1]);
    }
  }

  lemma BurstInRecord(a: Image, b: Image, sector: nat, before: seq<byte>, u: seq<byte>, v: seq<byte>, after: seq<byte>,
                      start: nat, count: nat)
    requires Burst(a, b, sector, before, u, v, after)
    requires start + count <= |a| && start <= sector < start + count
    ensures Crc32.Checksum(ReadSectors(a, start, count)) != Crc32.Checksum(ReadSectors(b, start, count))
  {
    hide Crc32.Checksum, ReadSectors;
    var k := sector - start;
    ReadSplit(a, start, count, k);
    ReadSplit(b, start, count, k);
    SameSectors(a, b, start, k);
    SameSectors(a, b, sector + 1, count - k - 1);
    var head, tail := ReadSectors(a, start, k) + before, after + ReadSectors(a, sector + 1, count - k - 1);
    assert ReadSectors(a, start, count) == head + u + tail;
    assert ReadSectors(b, start, count) == head + v + tail;
    Crc32.BurstDetected(head, u, v, tail);
  }

  /** After such damage to the active record a mount yields the older snapshot
      if that is still intact and reports corruption if not. */
  lemma DamageFallsBack(a: Image, b: Image, mem: Mem, sector: nat,
                        before: seq<byte>, u: seq<byte>, v: seq<byte>, after: seq<byte>)
    requires Live(a, mem) && Burst(a, b, sector, before, u, v, after)
    requires mem.activeStart <= sector < mem.activeStart + mem.activeSectors
    ensures 2 <= |b| < U64_LIMIT
    ensures Load(b) == (var other := Candidate(b, 1 - SuperSector(mem.generation));
                        if other.Some? then Ok(other) else Err(CorruptSuperblocks))
    ensures Load(b).Ok? ==> Load(b).value.value.superblock.generation < mem.generation
  {
    hide DecodeSuperblock, ReadRecord, Geometry, ActiveIn, Crc32.Checksum, Burst;
    DamagedCandidate(a, b, mem, sector, before, u, v, after);
    SuperblockNotBlank(a, SuperSector(mem.generation));
    hide Blank;
  }

  lemma SuperblockNotBlank(image: Image, s: nat)
    requires s < |image| < U64_LIMIT && Candidate(image, s).Some?
    ensures !Blank(image[s])
  {
    hide Candidate, Blank, DecodeSuperblock;
    CandidateSuperblock(image, s);
    if Blank(image[s]) {
      BlankDecodes(image, s);
    }
  }

  lemma DamagedCandidate(a: Image, b: Image, mem: Mem, sector: nat,
                         before: seq<byte>, u: seq<byte>, v: seq<byte>, after: seq<byte>)
    requires Live(a, mem) && Burst(a, b, sector, before, u, v, after)
    requires mem.activeStart <= sector < mem.activeStart + mem.activeSectors
    ensures |b| == |a| && a[0] == b[0] && a[1] == b[1]
    ensures Candidate(b, SuperSector(mem.generation)) == None
  {
    hide DecodeSuperblock, RecordContents, Crc32.Checksum, ReadSectors, Geometry;
    var s := SuperSector(mem.generation);
    CandidateSuperblock(a, s);
    var sb := Candidate(a, s).value.superblock;
    assert sb.recordStart >= RECORD_AREA_START;
    BurstInRecord(a, b, sector, before, u, v, after, sb.recordStart, sb.recordSectors);
  }

  // ----- What a mount finds in general

  /** A mount takes the newest superblock whose record is intact, the first of two equally new
      ones, and reports corruption exactly if there is none on a device that was written. */
  lemma LoadMeaning(image: Image)
    requires 2 <= |image| < U64_LIMIT
    ensures var r, a, b := Load(image), Candidate(image, 0), Candidate(image, 1);
      && (r.Err? <==> a.None? && b.None? && !(Blank(image[0]) && Blank(image[1])))
      && (r.Err? ==> r == Err(CorruptSuperblocks))
      && (r == Ok(None) <==> a.None? && b.None? && Blank(image[0]) && Blank(image[1]))
      && (a.Some? && (b.None? || a.value.superblock.generation >= b.value.superblock.generation) ==> r == Ok(a))
      && (b.Some? && (a.None? || b.value.superblock.generation > a.value.superblock.generation) ==> r == Ok(b))
  {
    hide Candidate, Blank;
  }

  lemma BlankIsNoCandidate(image: Image, s: nat)
    requires s < |image| < U64_LIMIT && Blank(image[s])
    ensures Candidate(image, s) == None
  {
    hide Blank, Candidate;
    if Candidate(image, s).Some? {
      SuperblockNotBlank(image, s);
    }
  }

  // ----- Read errors

  /** A mount that cannot read a record passes over its superblock. It finds the mounted
      snapshot if and only if it can read the active record; otherwise it silently goes back
      to the older snapshot, or reports corruption if that is unreadable too. */
  lemma UnreadableFallsBack(image: Image, mem: Mem, first: bool, second: bool)
    requires Live(image, mem)
    ensures 2 <= |image| < U64_LIMIT
    ensures var (own, other) := if SuperSector(mem.generation) == 0 then (first, second) else (second, first);
      var found := LoadSeeing(image, first, second);
      && (found.Ok? && found.value.Some? && Agrees(found.value.value, mem) <==> own)
      && (own ==> found == Load(image))
      && (!own ==>
            var older := Seen(image, 1 - SuperSector(mem.generation), other);
            && found == (if older.Some? then Ok(older) else Err(CorruptSuperblocks))
            && (older.Some? ==> older.value.superblock.generation < mem.generation))
  {
    hide DecodeSuperblock, ReadRecord, Geometry, ActiveIn, Crc32.Checksum;
    LiveLoads(image, mem);
    SuperblockNotBlank(image, SuperSector(mem.generation));
    hide Candidate, Blank;
  }
}
