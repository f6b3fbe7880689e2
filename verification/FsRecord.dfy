/** The snapshot record of CodexFS: a checksummed header, the entries of one tree
    one after the other, and zero padding up to a whole number of sectors. */
module FsRecord {
  import opened Bytes
  import opened Wrappers
  import opened FsPath
  import opened FsTree
  import Crc32

  const SECTOR_SIZE: nat := 512
  const FORMAT_VERSION: u32 := 3
  const MIN_FORMAT_VERSION: u32 := 1
  const RECORD_SECTORS: nat := 64
  const RECORD_BYTES: nat := 32768
  const MAX_RECORD_SECTORS: nat := 8192
  const MAX_RECORD_BYTES: nat := 0x40_0000
  const HEADER_BYTES: nat := 64
  const LEGACY_ENTRY_BYTES: nat := 8
  const ENTRY_BYTES: nat := 12
  const HEADER_CRC_OFFSET: nat := 36
  const KIND_FILE: u16 := 1
  const KIND_DIRECTORY: u16 := 2

  /** "CDXREC1" and a zero byte. */
  const RECORD_MAGIC: seq<byte> := [0x43, 0x44, 0x58, 0x52, 0x45, 0x43, 0x31, 0]

  function EncodeKind(kind: Kind): (raw: u16)
  {
    match kind
    case File => KIND_FILE
    case Directory => KIND_DIRECTORY
  }

  function DecodeKind(raw: u16): (r: Result<Kind, FsError>)
  {
    if raw == KIND_FILE then Ok(File)
    else if raw == KIND_DIRECTORY then Ok(Directory)
    else Err(CorruptRecord)
  }

  // ----- The bytes of a record

  predicate Storable(e: Entry)
  {
    |e.name| <= MAX_PATH_BYTES && |e.data| < U32_LIMIT
  }

  function EntryMeta(e: Entry): (s: seq<byte>)
    requires Storable(e)
    ensures |s| == ENTRY_BYTES
  {
    LeU16(|e.name|) + LeU16(EncodeKind(e.kind)) + LeU32(|e.data|) + LeU16(e.permissions) + LeU16(0)
  }

  function EntryBytes(e: Entry): (s: seq<byte>)
    requires Storable(e)
    ensures |s| == EntrySize(e)
  {
    EntryMeta(e) + e.name + e.data
  }

  function EntrySize(e: Entry): nat
  {
    ENTRY_BYTES + |e.name| + |e.data|
  }

  function PayloadSize(files: seq<Entry>): nat
  {
    if files == [] then 0 else PayloadSize(files[..|files| - 1]) + EntrySize(files[|files| - 1])
  }

  function Payload(files: seq<Entry>): (s: seq<byte>)
    requires forall i :: 0 <= i < |files| ==> Storable(files[i])
    ensures |s| == PayloadSize(files)
  {
    if files == [] then [] else Payload(files[..|files| - 1]) + EntryBytes(files[|files| - 1])
  }

  /** The header fields with `headerCrc` in the checksum field. */
  function HeaderText(version: u32, generation: u64, count: u32, payload: seq<byte>, headerCrc: u32, rest: seq<byte>)
    : (s: seq<byte>)
    requires |payload| < U32_LIMIT && |rest| == 24
    ensures |s| == HEADER_BYTES
  {
    RECORD_MAGIC + LeU32(version) + LeU32(HEADER_BYTES) + LeU64(generation)
    + LeU32(count) + LeU32(|payload|) + LeU32(Crc32.Checksum(payload)) + LeU32(headerCrc) + rest
  }

  /** A header of the given version with the checksums of payload and header. */
  function SealedHeader(version: u32, generation: u64, count: u32, payload: seq<byte>, rest: seq<byte>)
    : (s: seq<byte>)
    requires |payload| < U32_LIMIT && |rest| == 24
    ensures |s| == HEADER_BYTES
  {
    HeaderText(version, generation, count, payload,
               Crc32.Checksum(HeaderText(version, generation, count, payload, 0, rest)), rest)
  }

  /** The header as it is written now. */
  function HeaderFields(generation: u64, count: u32, payload: seq<byte>, headerCrc: u32): (s: seq<byte>)
    requires |payload| < U32_LIMIT
    ensures |s| == HEADER_BYTES
  {
    HeaderText(FORMAT_VERSION, generation, count, payload, headerCrc, Zeros(24))
  }

  function Header(generation: u64, count: u32, payload: seq<byte>): (s: seq<byte>)
    requires |payload| < U32_LIMIT
    ensures |s| == HEADER_BYTES
  {
    HeaderFields(generation, count, payload, Crc32.Checksum(HeaderFields(generation, count, payload, 0)))
  }

  function RecordLength(files: seq<Entry>): (n: nat)
    ensures n % SECTOR_SIZE == 0 && n >= RECORD_BYTES && n >= HEADER_BYTES + PayloadSize(files)
    ensures n == RECORD_BYTES || n < HEADER_BYTES + PayloadSize(files) + SECTOR_SIZE
  {
    var aligned := (HEADER_BYTES + PayloadSize(files) + 511) / 512 * 512;
    if aligned > RECORD_BYTES then aligned else RECORD_BYTES
  }

  predicate Encodable(files: seq<Entry>)
  {
    && |files| <= MAX_FILES
    && ValidateTree(files, true).Pass?
    && RecordLength(files) <= MAX_RECORD_BYTES
  }

  lemma {:induction false} EntryWithinPayload(files: seq<Entry>, i: nat)
    requires i < |files|
    ensures EntrySize(files[i]) <= PayloadSize(files)
  {
    var last := |files| - 1;
    if i < last {
      assert files[..last][i] == files[i];
      EntryWithinPayload(files[..last], i);
    }
  }

  lemma EncodableIsStorable(files: seq<Entry>)
    requires Encodable(files)
    ensures forall i :: 0 <= i < |files| ==> Storable(files[i])
  {
    forall i | 0 <= i < |files|
      ensures Storable(files[i])
    {
      assert ValidateEntry(files, files[i], true).Pass?;
      EntryWithinPayload(files, i);
    }
  }

  function RecordBytes(generation: u64, files: seq<Entry>): (s: seq<byte>)
    requires Encodable(files)
    ensures |s| == RecordLength(files)
  {
    EncodableIsStorable(files);
    var payload := Payload(files);
    Header(generation, |files|, payload) + payload + Zeros(RecordLength(files) - HEADER_BYTES - |payload|)
  }

  // ----- Reading a record back

  function ParseMeta(record: seq<byte>, version: u32, at: nat): (r: Result<(Kind, u16), FsError>)
    requires at + (if version == 1 then LEGACY_ENTRY_BYTES else ENTRY_BYTES) <= |record|
    ensures r.Ok? ==> r.value.1 < PERMISSION_LIMIT
  {
    var flags := U16At(record, at + 2);
    if version == 1 then
      if flags != 0 then Err(CorruptRecord) else Ok((File, DEFAULT_FILE_PERMISSIONS))
    else
      var kind :- DecodeKind(flags);
      var permissions := U16At(record, at + 8);
      if U16At(record, at + 10) != 0 then Err(CorruptRecord)
      else if permissions >= PERMISSION_LIMIT then Err(InvalidPermissions)
      else Ok((kind, permissions))
  }

  /** The entry stored at `at` and the position behind it. */
  function ParseEntry(record: seq<byte>, version: u32, at: nat, end: nat): (r: Result<(Entry, nat), FsError>)
    requires at <= end <= |record|
    ensures r.Ok? ==> at < r.value.1 <= end && ValidPath(r.value.0.name)
  {
    var metaEnd := at + if version == 1 then LEGACY_ENTRY_BYTES else ENTRY_BYTES;
    if metaEnd > end then Err(CorruptRecord)
    else
      var nameLen := U16At(record, at);
      var dataLen := U32At(record, at + 4);
      var meta :- ParseMeta(record, version, at);
      var nameEnd := metaEnd + nameLen;
      var dataEnd := nameEnd + dataLen;
      if dataEnd > end then Err(CorruptRecord)
      else
        var name := record[metaEnd..nameEnd];
        if !Utf8(name) then Err(InvalidUtf8)
        else if !ValidPath(name) then Err(InvalidPath)
        else if meta.0 == Directory && dataLen != 0 then Err(CorruptRecord)
        else Ok((Entry(name, record[nameEnd..dataEnd], meta.0, meta.1), dataEnd))
  }

  /** `count` further entries from `at`, appended to `seen`. */
  function ParseEntries(record: seq<byte>, version: u32, at: nat, end: nat, count: nat, seen: seq<Entry>)
    : (r: Result<(seq<Entry>, nat), FsError>)
    requires at <= end <= |record|
    decreases count
  {
    if count == 0 then Ok((seen, at))
    else
      var parsed :- ParseEntry(record, version, at, end);
      if Position(seen, parsed.0.name) < |seen| then Err(CorruptRecord)
      else ParseEntries(record, version, parsed.1, end, count - 1, seen + [parsed.0])
  }

  predicate GoodHeader(record: seq<byte>, generation: u64)
  {
    && |record| >= HEADER_BYTES
    && record[0..8] == RECORD_MAGIC
    && MIN_FORMAT_VERSION <= U32At(record, 8) <= FORMAT_VERSION
    && U32At(record, 12) == HEADER_BYTES
    && U64At(record, 16) == generation
    && Crc32.Checksum(Put(record[..HEADER_BYTES], HEADER_CRC_OFFSET, LeU32(0))) == U32At(record, HEADER_CRC_OFFSET)
    && U32At(record, 24) <= MAX_FILES
    && HEADER_BYTES + U32At(record, 28) <= |record|
    && Crc32.Checksum(record[HEADER_BYTES..HEADER_BYTES + U32At(record, 28)]) == U32At(record, 32)
  }

  function RecordContents(record: seq<byte>, generation: u64): (r: Result<seq<Entry>, FsError>)
  {
    if !GoodHeader(record, generation) then Err(CorruptRecord)
    else
      var version := U32At(record, 8);
      var end := HEADER_BYTES + U32At(record, 28);
      var parsed :- ParseEntries(record, version, HEADER_BYTES, end, U32At(record, 24), []);
      if parsed.1 != end then Err(CorruptRecord)
      else
        var outcome := ValidateTree(parsed.0, version != 1);
        if outcome.Fail? then Err(outcome.error) else Ok(parsed.0)
  }

  // ----- Round trip

  lemma MetaLayout(record: seq<byte>, e: Entry, at: nat)
    requires Storable(e) && at + ENTRY_BYTES <= |record|
    requires record[at..at + ENTRY_BYTES] == EntryMeta(e)
    ensures U16At(record, at) == |e.name|
    ensures U16At(record, at + 2) == EncodeKind(e.kind)
    ensures U32At(record, at + 4) == |e.data|
    ensures U16At(record, at + 8) == e.permissions
    ensures U16At(record, at + 10) == 0
  {
    var name, kind, data, mode := LeU16(|e.name|), LeU16(EncodeKind(e.kind)), LeU32(|e.data|), LeU16(e.permissions);
    Fields5(name, kind, data, mode, LeU16(0), 2, 4, 8, 10, 12);
    Slice(record, at, 12, 0, 2);
    U16RoundTrip(record, at, |e.name|);
    Slice(record, at, 12, 2, 2);
    U16RoundTrip(record, at + 2, EncodeKind(e.kind));
    Slice(record, at, 12, 4, 4);
    U32RoundTrip(record, at + 4, |e.data|);
    Slice(record, at, 12, 8, 2);
    U16RoundTrip(record, at + 8, e.permissions);
    Slice(record, at, 12, 10, 2);
    U16RoundTrip(record, at + 10, 0);
  }

  lemma EntryLayout(record: seq<byte>, e: Entry, at: nat)
    requires Storable(e) && at + EntrySize(e) <= |record|
    requires record[at..at + EntrySize(e)] == EntryBytes(e)
    ensures record[at..at + ENTRY_BYTES] == EntryMeta(e)
    ensures record[at + ENTRY_BYTES..at + ENTRY_BYTES + |e.name|] == e.name
    ensures record[at + ENTRY_BYTES + |e.name|..at + EntrySize(e)] == e.data
  {
    Fields5(EntryMeta(e), e.name, e.data, [], [],
            12, 12 + |e.name|, EntrySize(e), EntrySize(e), EntrySize(e));
    assert EntryMeta(e) + e.name + e.data + [] + [] == EntryBytes(e);
    Slice(record, at, EntrySize(e), 0, 12);
    Slice(record, at, EntrySize(e), 12, |e.name|);
    Slice(record, at, EntrySize(e), 12 + |e.name|, |e.data|);
  }

  lemma EntryRoundTrip(record: seq<byte>, e: Entry, at: nat, end: nat)
    requires Storable(e) && ValidPath(e.name) && e.permissions < PERMISSION_LIMIT
    requires e.kind == Directory ==> e.data == []
    requires at + EntrySize(e) <= end <= |record|
    requires record[at..at + EntrySize(e)] == EntryBytes(e)
    ensures ParseEntry(record, FORMAT_VERSION, at, end) == Ok((e, at + EntrySize(e)))
  {
    EntryLayout(record, e, at);
    MetaLayout(record, e, at);
    MetaRoundTrip(record, e, at);
    ParseFromFacts(record, e, at, end);
  }

  lemma MetaRoundTrip(record: seq<byte>, e: Entry, at: nat)
    requires at + ENTRY_BYTES <= |record| && e.permissions < PERMISSION_LIMIT
    requires U16At(record, at + 2) == EncodeKind(e.kind)
    requires U16At(record, at + 8) == e.permissions
    requires U16At(record, at + 10) == 0
    ensures ParseMeta(record, FORMAT_VERSION, at) == Ok((e.kind, e.permissions))
  {
  }

  lemma ParseFromFacts(record: seq<byte>, e: Entry, at: nat, end: nat)
    requires ValidPath(e.name) && (e.kind == Directory ==> e.data == [])
    requires at + EntrySize(e) <= end <= |record|
    requires U16At(record, at) == |e.name|
    requires U32At(record, at + 4) == |e.data|
    requires ParseMeta(record, FORMAT_VERSION, at) == Ok((e.kind, e.permissions))
    requires record[at + ENTRY_BYTES..at + ENTRY_BYTES + |e.name|] == e.name
    requires record[at + ENTRY_BYTES + |e.name|..at + EntrySize(e)] == e.data
    ensures ParseEntry(record, FORMAT_VERSION, at, end) == Ok((e, at + EntrySize(e)))
  {
    hide ValidPath, Utf8, U16At, U32At, ParseMeta;
  }

  /** Where the payload holds the entry at position `i`. */
  lemma {:induction false} PayloadSlice(files: seq<Entry>, i: nat)
    requires i < |files| && forall k :: 0 <= k < |files| ==> Storable(files[k])
    ensures PayloadSize(files[..i]) + EntrySize(files[i]) == PayloadSize(files[..i + 1]) <= PayloadSize(files)
    ensures Payload(files)[PayloadSize(files[..i])..PayloadSize(files[..i + 1])] == EntryBytes(files[i])
  {
    hide EntryBytes, Storable, EntrySize;
    var last := |files| - 1;
    if i == last {
      assert files[..i + 1] == files;
    } else {
      var front := files[..last];
      PayloadSlice(front, i);
      assert front[..i] == files[..i] && front[..i + 1] == files[..i + 1];
    }
  }

  lemma HeaderLayout(record: seq<byte>, version: u32, generation: u64, count: u32, payload: seq<byte>, headerCrc: u32,
                     rest: seq<byte>)
    requires |payload| < U32_LIMIT && |rest| == 24 && |record| >= HEADER_BYTES
    requires record[..HEADER_BYTES] == HeaderText(version, generation, count, payload, headerCrc, rest)
    ensures record[0..8] == RECORD_MAGIC
    ensures U32At(record, 8) == version
    ensures U32At(record, 12) == HEADER_BYTES
    ensures U64At(record, 16) == generation
    ensures U32At(record, 24) == count
    ensures U32At(record, 28) == |payload|
    ensures U32At(record, 32) == Crc32.Checksum(payload)
    ensures U32At(record, HEADER_CRC_OFFSET) == headerCrc
  {
    hide U32At, U64At, LeU32, LeU64, Crc32.Checksum;
    var head := record[..HEADER_BYTES];
    var format, size, gen := LeU32(version), LeU32(HEADER_BYTES), LeU64(generation);
    var first := RECORD_MAGIC + format + size + gen + LeU32(count);
    var length, crc, own := LeU32(|payload|), LeU32(Crc32.Checksum(payload)), LeU32(headerCrc);
    Fields5(RECORD_MAGIC, format, size, gen, LeU32(count), 8, 12, 16, 24, 28);
    Fields5(first, length, crc, own, rest, 28, 32, 36, 40, 64);
    assert head == first + length + crc + own + rest;
    Slice(head, 0, 28, 0, 8);
    Slice(head, 0, 28, 8, 4);
    Slice(head, 0, 28, 12, 4);
    Slice(head, 0, 28, 16, 8);
    Slice(head, 0, 28, 24, 4);
    assert forall i, k :: 0 <= i <= k <= HEADER_BYTES ==> record[i..k] == head[i..k];
    U32RoundTrip(record, 8, version);
    U32RoundTrip(record, 12, HEADER_BYTES);
    U64RoundTrip(record, 16, generation);
    U32RoundTrip(record, 24, count);
    U32RoundTrip(record, 28, |payload|);
    U32RoundTrip(record, 32, Crc32.Checksum(payload));
    U32RoundTrip(record, 36, headerCrc);
  }

  /** Clearing the checksum field recovers the bytes the checksum was taken over. */
  lemma HeaderCleared(version: u32, generation: u64, count: u32, payload: seq<byte>, headerCrc: u32, rest: seq<byte>)
    requires |payload| < U32_LIMIT && |rest| == 24
    ensures Put(HeaderText(version, generation, count, payload, headerCrc, rest), HEADER_CRC_OFFSET, LeU32(0))
         == HeaderText(version, generation, count, payload, 0, rest)
  {
    hide LeU32, LeU64, Crc32.Checksum;
    var first := RECORD_MAGIC + LeU32(version) + LeU32(HEADER_BYTES) + LeU64(generation)
      + LeU32(count) + LeU32(|payload|) + LeU32(Crc32.Checksum(payload));
    assert HeaderText(version, generation, count, payload, headerCrc, rest) == first + LeU32(headerCrc) + rest;
    assert |first| == 36;
    assert Put(first + LeU32(headerCrc) + rest, 36, LeU32(0)) == first + LeU32(0) + rest;
  }

  lemma RecordParts(generation: u64, files: seq<Entry>)
    requires Encodable(files)
    ensures forall i :: 0 <= i < |files| ==> Storable(files[i])
    ensures |RecordBytes(generation, files)| >= HEADER_BYTES + PayloadSize(files)
    ensures RecordBytes(generation, files)[..HEADER_BYTES] == Header(generation, |files|, Payload(files))
    ensures RecordBytes(generation, files)[HEADER_BYTES..HEADER_BYTES + PayloadSize(files)] == Payload(files)
  {
    hide Header, Payload, Storable, ValidateTree, PayloadSize;
    EncodableIsStorable(files);
    var payload := Payload(files);
    var pad := Zeros(RecordLength(files) - HEADER_BYTES - |payload|);
    Fields5(Header(generation, |files|, payload), payload, pad, [], [],
            64, 64 + |payload|, RecordLength(files), RecordLength(files), RecordLength(files));
    assert RecordBytes(generation, files) == Header(generation, |files|, payload) + payload + pad + [] + [];
  }

  lemma HeaderIsGood(record: seq<byte>, version: u32, generation: u64, count: u32, payload: seq<byte>, rest: seq<byte>)
    requires |payload| < U32_LIMIT && |rest| == 24 && count <= MAX_FILES
    requires MIN_FORMAT_VERSION <= version <= FORMAT_VERSION
    requires |record| >= HEADER_BYTES + |payload|
    requires record[..HEADER_BYTES] == SealedHeader(version, generation, count, payload, rest)
    requires record[HEADER_BYTES..HEADER_BYTES + |payload|] == payload
    ensures GoodHeader(record, generation)
    ensures U32At(record, 8) == version
    ensures U32At(record, 24) == count
    ensures U32At(record, 28) == |payload|
  {
    hide HeaderText, U32At, U64At, LeU32, Crc32.Checksum, Put;
    var own := Crc32.Checksum(HeaderText(version, generation, count, payload, 0, rest));
    HeaderLayout(record, version, generation, count, payload, own, rest);
    HeaderCleared(version, generation, count, payload, own, rest);
  }

  lemma HeaderIsSealed(generation: u64, count: u32, payload: seq<byte>)
    requires |payload| < U32_LIMIT
    ensures Header(generation, count, payload) == SealedHeader(FORMAT_VERSION, generation, count, payload, Zeros(24))
  {
    hide HeaderText, Crc32.Checksum;
  }

  /** A header that passes the checks spells out what it says. */
  lemma HeaderRebuilt(record: seq<byte>, generation: u64)
    requires GoodHeader(record, generation)
    ensures HEADER_BYTES + U32At(record, 28) <= |record|
    ensures record[..HEADER_BYTES] ==
      SealedHeader(U32At(record, 8), generation, U32At(record, 24),
                   record[HEADER_BYTES..HEADER_BYTES + U32At(record, 28)], record[40..64])
  {
    hide U32At, U64At, LeU32, LeU64, Crc32.Checksum, Put;
    var payload, own, rest :=
      record[HEADER_BYTES..HEADER_BYTES + U32At(record, 28)], U32At(record, HEADER_CRC_OFFSET), record[40..64];
    LittleEndian32(record, 8);
    LittleEndian32(record, 12);
    LittleEndian64(record, 16);
    LittleEndian32(record, 24);
    LittleEndian32(record, 28);
    LittleEndian32(record, 32);
    LittleEndian32(record, 36);
    assert record[0..28] == record[0..8] + record[8..12] + record[12..16] + record[16..24] + record[24..28];
    assert record[..HEADER_BYTES] == record[0..28] + record[28..32] + record[32..36] + record[36..40] + record[40..64];
    assert record[..HEADER_BYTES] == HeaderText(U32At(record, 8), generation, U32At(record, 24), payload, own, rest);
    HeaderCleared(U32At(record, 8), generation, U32At(record, 24), payload, own, rest);
  }

  /** Parsing from the `i`-th entry of an encoded record yields the rest of the files. */
  lemma ParseNothing(record: seq<byte>, version: u32, at: nat, end: nat, seen: seq<Entry>)
    requires at <= end <= |record|
    ensures ParseEntries(record, version, at, end, 0, seen) == Ok((seen, at))
  {
  }

  /** One round of the loop: an entry with a new name is read and the rest follows. */
  lemma ParseStep(record: seq<byte>, version: u32, at: nat, end: nat, count: nat, seen: seq<Entry>)
    requires at <= end <= |record| && count > 0
    ensures var parsed, r := ParseEntry(record, version, at, end), ParseEntries(record, version, at, end, count, seen);
      if parsed.Ok? && Position(seen, parsed.value.0.name) == |seen|
      then r == ParseEntries(record, version, parsed.value.1, end, count - 1, seen + [parsed.value.0])
      else r.Err?
  {
    hide ParseEntry, Position;
  }

  /** The record holds the entries of a list behind its header. */
  ghost predicate Recorded(record: seq<byte>, files: seq<Entry>)
  {
    && (forall k :: 0 <= k < |files| ==> Storable(files[k]) && ValidateEntry(files, files[k], true).Pass?)
    && |record| >= HEADER_BYTES + PayloadSize(files)
    && record[HEADER_BYTES..HEADER_BYTES + PayloadSize(files)] == Payload(files)
  }

  /** Where an entry of the list stands. */
  lemma EntryStands(record: seq<byte>, files: seq<Entry>, i: nat)
    requires Recorded(record, files) && i < |files|
    ensures Storable(files[i]) && ValidateEntry(files, files[i], true).Pass?
    ensures PayloadSize(files[..i]) + EntrySize(files[i]) == PayloadSize(files[..i + 1]) <= PayloadSize(files)
    ensures var at := HEADER_BYTES + PayloadSize(files[..i]);
      at + EntrySize(files[i]) <= |record| && record[at..at + EntrySize(files[i])] == EntryBytes(files[i])
  {
    hide EntryBytes, Payload, ValidateEntry, Storable, PayloadSize, EntrySize;
    PayloadSlice(files, i);
    PartOf(record, HEADER_BYTES, Payload(files), PayloadSize(files[..i]), EntryBytes(files[i]));
  }

  lemma PartOf(s: seq<byte>, at: nat, t: seq<byte>, i: nat, u: seq<byte>)
    requires at + |t| <= |s| && s[at..at + |t|] == t && i + |u| <= |t| && t[i..i + |u|] == u
    ensures s[at + i..at + i + |u|] == u
  {
    Slice(s, at, |t|, i, |u|);
  }

  lemma EntryReadBack(record: seq<byte>, files: seq<Entry>, i: nat)
    requires Recorded(record, files) && i < |files| && |record| >= HEADER_BYTES + PayloadSize(files)
    ensures PayloadSize(files[..i]) <= PayloadSize(files[..i + 1]) <= PayloadSize(files)
    ensures ParseEntry(record, FORMAT_VERSION, HEADER_BYTES + PayloadSize(files[..i]),
                       HEADER_BYTES + PayloadSize(files))
         == Ok((files[i], HEADER_BYTES + PayloadSize(files[..i + 1])))
  {
    hide Recorded, ParseEntry, EntryBytes, ValidPath, ValidateEntry, Storable, PayloadSize, EntrySize;
    EntryStands(record, files, i);
    ValidatedEntry(files, files[i]);
    EntryRoundTrip(record, files[i], HEADER_BYTES + PayloadSize(files[..i]), HEADER_BYTES + PayloadSize(files));
  }

  lemma {:induction false} ParseFrom(record: seq<byte>, files: seq<Entry>, i: nat)
    requires Distinct(files) && i <= |files|
    requires Recorded(record, files) && |record| >= HEADER_BYTES + PayloadSize(files)
    ensures PayloadSize(files[..i]) <= PayloadSize(files)
    ensures ParseEntries(record, FORMAT_VERSION, HEADER_BYTES + PayloadSize(files[..i]),
                         HEADER_BYTES + PayloadSize(files), |files| - i, files[..i])
         == Ok((files, HEADER_BYTES + PayloadSize(files)))
    decreases |files| - i
  {
    hide Recorded, ParseEntry, ParseEntries, PayloadSize, Position, Distinct;
    if i == |files| {
      assert files[..i] == files;
      ParseNothing(record, FORMAT_VERSION, HEADER_BYTES + PayloadSize(files), HEADER_BYTES + PayloadSize(files), files);
    } else {
      EntryReadBack(record, files, i);
      NotSeen(files, i);
      ParseStep(record, FORMAT_VERSION, HEADER_BYTES + PayloadSize(files[..i]), HEADER_BYTES + PayloadSize(files),
                |files| - i, files[..i]);
      ParseFrom(record, files, i + 1);
      assert files[..i] + [files[i]] == files[..i + 1];
    }
  }

  lemma ValidatedEntry(files: seq<Entry>, e: Entry)
    requires ValidateEntry(files, e, true).Pass?
    ensures ValidPath(e.name) && e.permissions < PERMISSION_LIMIT
    ensures e.kind == Directory ==> e.data == []
  {
  }

  lemma NotSeen(files: seq<Entry>, i: nat)
    requires Distinct(files) && i < |files|
    ensures Position(files[..i], files[i].name) == i
  {
  }

  lemma {:induction false} ParsedAreDistinct(record: seq<byte>, version: u32, at: nat, end: nat, count: nat,
                                             seen: seq<Entry>)
    requires at <= end <= |record| && Distinct(seen)
    ensures var r := ParseEntries(record, version, at, end, count, seen); r.Ok? ==> Distinct(r.value.0)
    decreases count
  {
    hide ParseEntry, Position;
    if count > 0 {
      ParseStep(record, version, at, end, count, seen);
      hide ParseEntries;
      var parsed := ParseEntry(record, version, at, end);
      if parsed.Ok? && Position(seen, parsed.value.0.name) == |seen| {
        assert Distinct(seen + [parsed.value.0]);
        ParsedAreDistinct(record, version, parsed.value.1, end, count - 1, seen + [parsed.value.0]);
      }
    }
  }

  /** A record gives back the files it was made from exactly when their names
      are distinct. */
  lemma RecordRoundTrip(generation: u64, files: seq<Entry>)
    requires Encodable(files)
    ensures RecordContents(RecordBytes(generation, files), generation) == Ok(files) <==> Distinct(files)
  {
    hide RecordBytes, GoodHeader, ParseEntries, ValidateTree, U32At, Storable, Header, Payload, ValidateEntry,
      PayloadSize, SealedHeader;
    var record := RecordBytes(generation, files);
    RecordParts(generation, files);
    HeaderIsSealed(generation, |files|, Payload(files));
    HeaderIsGood(record, FORMAT_VERSION, generation, |files|, Payload(files), Zeros(24));
    var end := HEADER_BYTES + PayloadSize(files);
    if Distinct(files) {
      assert files[..0] == [];
      assert PayloadSize([]) == 0 by { EmptyPayload(); }
      ValidatedTree(files);
      ParseFrom(record, files, 0);
    } else {
      ParsedAreDistinct(record, FORMAT_VERSION, HEADER_BYTES, end, |files|, []);
    }
  }

  lemma EmptyPayload()
    ensures PayloadSize([]) == 0
  {
  }

  lemma ValidatedTree(files: seq<Entry>)
    requires ValidateTree(files, true).Pass?
    ensures forall k :: 0 <= k < |files| ==> ValidateEntry(files, files[k], true).Pass?
  {
    hide ValidateEntry;
  }

  // ----- The codec as the file system runs it

  /** The unpadded size of a record, unless it does not fit a 64-bit size. */
  method RequiredRecordBytes(files: seq<Entry>) returns (r: Result<nat, FsError>)
    ensures r == if HEADER_BYTES + PayloadSize(files) < U64_LIMIT
                 then Ok(HEADER_BYTES + PayloadSize(files)) else Err(ArithmeticOverflow)
  {
    var bytes := HEADER_BYTES;
    for i := 0 to |files|
      invariant bytes == HEADER_BYTES + PayloadSize(files[..i]) < U64_LIMIT
    {
      assert files[..i + 1][..i] == files[..i];
      bytes := bytes + EntrySize(files[i]);
      if bytes >= U64_LIMIT {
        PayloadGrows(files, i + 1);
        return Err(ArithmeticOverflow);
      }
    }
    assert files[..|files|] == files;
    r := Ok(bytes);
  }

  lemma {:induction false} PayloadGrows(files: seq<Entry>, i: nat)
    requires i <= |files|
    ensures PayloadSize(files[..i]) <= PayloadSize(files)
  {
    if i < |files| {
      var front := files[..|files| - 1];
      PayloadGrows(front, i);
      assert front[..i] == files[..i];
    } else {
      assert files[..i] == files;
    }
  }

  /** Writes one entry behind the `written` bytes of the buffer. */
  method PutEntry(buffer: array<byte>, e: Entry, at: nat, ghost written: seq<byte>) returns (next: nat)
    requires Storable(e) && at == |written| && at + EntrySize(e) <= buffer.Length
    requires buffer[..] == Filled(written, buffer.Length)
    modifies buffer
    ensures next == at + EntrySize(e)
    ensures buffer[..] == Filled(written + EntryBytes(e), buffer.Length)
  {
    hide Filled, Put;
    var n := buffer.Length;
    var name, kind, data, mode := LeU16(|e.name|), LeU16(EncodeKind(e.kind)), LeU32(|e.data|), LeU16(e.permissions);
    PutField(buffer, at, name);
    PutAppends(written, n, name);
    PutField(buffer, at + 2, kind);
    PutAppends(written + name, n, kind);
    PutField(buffer, at + 4, data);
    PutAppends(written + name + kind, n, data);
    PutField(buffer, at + 8, mode);
    PutAppends(written + name + kind + data, n, mode);
    PutField(buffer, at + 10, LeU16(0));
    PutAppends(written + name + kind + data + mode, n, LeU16(0));
    assert written + name + kind + data + mode + LeU16(0) == written + EntryMeta(e);
    next := at + ENTRY_BYTES;
    PutField(buffer, next, e.name);
    PutAppends(written + EntryMeta(e), n, e.name);
    next := next + |e.name|;
    PutField(buffer, next, e.data);
    PutAppends(written + EntryMeta(e) + e.name, n, e.data);
    next := next + |e.data|;
    assert written + EntryMeta(e) + e.name + e.data == written + EntryBytes(e);
  }

  /** Encodes a tree: the only failures are too many files, a tree the validator
      rejects, and a record that would be larger than the format allows. */
  method EncodeRecord(generation: u64, files: seq<Entry>) returns (r: Result<seq<byte>, FsError>)
    ensures r.Ok? <==> Encodable(files)
    ensures r.Ok? ==> r.value == RecordBytes(generation, files)
    ensures |files| > MAX_FILES ==> r == Err(TooManyFiles)
    ensures |files| <= MAX_FILES && ValidateTree(files, true).Fail? ==> r == Err(ValidateTree(files, true).error)
    ensures |files| <= MAX_FILES && ValidateTree(files, true).Pass? && RecordLength(files) > MAX_RECORD_BYTES ==>
      r == Err(if HEADER_BYTES + PayloadSize(files) + 511 >= U64_LIMIT then ArithmeticOverflow else SnapshotTooLarge)
  {
    hide Filled, Put, Header, HeaderFields, Payload, PayloadSize, Storable, Crc32.Checksum, LeU32, LeU64, RecordBytes,
      ValidateTree, EntryBytes;
    if |files| > MAX_FILES {
      return Err(TooManyFiles);
    }
    var outcome := ValidateTree(files, true);
    if outcome.Fail? {
      return Err(outcome.error);
    }
    var required :- RequiredRecordBytes(files);
    if required + 511 >= U64_LIMIT {
      return Err(ArithmeticOverflow);
    }
    var aligned := (required + 511) / 512 * 512;
    var n := if aligned > RECORD_BYTES then aligned else RECORD_BYTES;
    if n > MAX_RECORD_BYTES {
      return Err(SnapshotTooLarge);
    }
    var record := FillRecord(generation, files, n);
    r := Ok(record[..]);
  }

  /** Fills a fresh buffer with the header, the entries and the two checksums. */
  method FillRecord(generation: u64, files: seq<Entry>, n: nat) returns (record: array<byte>)
    requires Encodable(files) && n == RecordLength(files)
    ensures fresh(record) && record[..] == RecordBytes(generation, files)
  {
    hide Filled, Put, Header, HeaderFields, Payload, PayloadSize, Storable, Crc32.Checksum, LeU32, LeU64, RecordBytes,
      ValidateTree, EntryBytes, StartOfHeader, Zeros;
    EncodableIsStorable(files);
    record := new byte[n](_ => 0);
    assert record[..] == Filled([], n) by { FilledNothing(record[..], n); }
    PutField(record, 0, RECORD_MAGIC);
    PutField(record, 8, LeU32(FORMAT_VERSION));
    PutField(record, 12, LeU32(HEADER_BYTES));
    PutField(record, 16, LeU64(generation));
    PutField(record, 24, LeU32(|files|));
    HeaderStart(generation, |files|, n);
    ghost var start := StartOfHeader(generation, |files|);
    var cursor := PutFiles(record, files, start);
    ghost var payload := Payload(files);
    PutField(record, 28, LeU32(cursor - HEADER_BYTES));
    PutKeepsPayload(start, payload, n, 28, LeU32(|payload|));
    assert record[HEADER_BYTES..cursor] == record[..][HEADER_BYTES..cursor] == payload;
    var payloadChecksum := Crc32.Compute(record[HEADER_BYTES..cursor]);
    PutField(record, 32, LeU32(payloadChecksum));
    FinishHeader(generation, |files|, payload, n);
    assert record[..HEADER_BYTES] == record[..][..HEADER_BYTES] == HeaderFields(generation, |files|, payload, 0);
    var headerChecksum := Crc32.Compute(record[..HEADER_BYTES]);
    PutField(record, HEADER_CRC_OFFSET, LeU32(headerChecksum));
    SealHeader(generation, |files|, payload, n);
    RecordIs(generation, files);
  }

  /** Writes every entry, one behind the other, after the header. */
  method PutFiles(record: array<byte>, files: seq<Entry>, ghost start: seq<byte>) returns (cursor: nat)
    requires |start| == HEADER_BYTES && forall k :: 0 <= k < |files| ==> Storable(files[k])
    requires HEADER_BYTES + PayloadSize(files) <= record.Length
    requires record[..] == Filled(start, record.Length)
    modifies record
    ensures cursor == HEADER_BYTES + PayloadSize(files)
    ensures record[..] == Filled(start + Payload(files), record.Length)
  {
    hide Filled, Payload, PayloadSize, Storable, EntryBytes, EntrySize;
    cursor := HEADER_BYTES;
    assert files[..0] == [];
    EmptyPayloadBytes();
    assert start + [] == start;
    for i := 0 to |files|
      invariant PayloadSize(files[..i]) <= PayloadSize(files)
      invariant cursor == HEADER_BYTES + PayloadSize(files[..i])
      invariant record[..] == Filled(start + Payload(files[..i]), record.Length)
    {
      PayloadStep(files, i);
      cursor := PutEntry(record, files[i], cursor, start + Payload(files[..i]));
      assert start + Payload(files[..i]) + EntryBytes(files[i]) == start + Payload(files[..i + 1]);
    }
    assert files[..|files|] == files;
  }

  lemma FilledNothing(s: seq<byte>, n: nat)
    requires |s| == n && forall i :: 0 <= i < n ==> s[i] == 0
    ensures s == Filled([], n)
  {
  }

  lemma EmptyPayloadBytes()
    ensures Payload([]) == [] && PayloadSize([]) == 0
  {
  }

  ghost function StartOfHeader(generation: u64, count: u32): (s: seq<byte>)
    ensures |s| == HEADER_BYTES
  {
    RECORD_MAGIC + LeU32(FORMAT_VERSION) + LeU32(HEADER_BYTES) + LeU64(generation) + LeU32(count) + Zeros(36)
  }

  lemma HeaderStart(generation: u64, count: u32, n: nat)
    requires n >= HEADER_BYTES
    ensures Put(Put(Put(Put(Put(Filled([], n), 0, RECORD_MAGIC), 8, LeU32(FORMAT_VERSION)), 12, LeU32(HEADER_BYTES)),
                        16, LeU64(generation)), 24, LeU32(count))
      == Filled(StartOfHeader(generation, count), n)
  {
    hide Put, LeU32, LeU64;
    var a := [] + RECORD_MAGIC;
    var b := a + LeU32(FORMAT_VERSION);
    var c := b + LeU32(HEADER_BYTES);
    var d := c + LeU64(generation);
    PutAppends([], n, RECORD_MAGIC);
    PutAppends(a, n, LeU32(FORMAT_VERSION));
    PutAppends(b, n, LeU32(HEADER_BYTES));
    PutAppends(c, n, LeU64(generation));
    PutAppends(d, n, LeU32(count));
    assert Filled(d + LeU32(count), n) == Filled(StartOfHeader(generation, count), n);
  }

  lemma PayloadStep(files: seq<Entry>, i: nat)
    requires i < |files| && forall k :: 0 <= k < |files| ==> Storable(files[k])
    ensures PayloadSize(files[..i + 1]) == PayloadSize(files[..i]) + EntrySize(files[i]) <= PayloadSize(files)
    ensures Payload(files[..i + 1]) == Payload(files[..i]) + EntryBytes(files[i])
  {
    assert files[..i + 1][..i] == files[..i];
    PayloadGrows(files, i + 1);
  }

  lemma FilledParts(start: seq<byte>, payload: seq<byte>, n: nat)
    requires |start| + |payload| <= n
    ensures Filled(start + payload, n) == start + (payload + Zeros(n - |start| - |payload|))
  {
  }

  lemma PutKeepsPayload(start: seq<byte>, payload: seq<byte>, n: nat, at: nat, field: seq<byte>)
    requires |start| == HEADER_BYTES && HEADER_BYTES + |payload| <= n && at + |field| <= HEADER_BYTES
    ensures Put(Filled(start + payload, n), at, field)[HEADER_BYTES..HEADER_BYTES + |payload|] == payload
  {
  }

  /** The header once the payload's length and checksum are in place. */
  lemma FinishHeader(generation: u64, count: u32, payload: seq<byte>, n: nat)
    requires |payload| < U32_LIMIT && HEADER_BYTES + |payload| <= n
    ensures
      Put(Put(Filled(StartOfHeader(generation, count) + payload, n), 28, LeU32(|payload|)),
          32, LeU32(Crc32.Checksum(payload)))
      == Filled(HeaderFields(generation, count, payload, 0) + payload, n)
    ensures Filled(HeaderFields(generation, count, payload, 0) + payload, n)[..HEADER_BYTES]
      == HeaderFields(generation, count, payload, 0)
  {
    hide Put, LeU64, Crc32.Checksum;
    var start := StartOfHeader(generation, count);
    var rest := payload + Zeros(n - HEADER_BYTES - |payload|);
    var a := RECORD_MAGIC + LeU32(FORMAT_VERSION) + LeU32(HEADER_BYTES) + LeU64(generation) + LeU32(count);
    var length, crc := LeU32(|payload|), LeU32(Crc32.Checksum(payload));
    FilledParts(start, payload, n);
    PutInFront(start, rest, 28, length);
    PutAppends(a, HEADER_BYTES, length);
    PutInFront(Filled(a + length, HEADER_BYTES), rest, 32, crc);
    PutAppends(a + length, HEADER_BYTES, crc);
    assert Filled(a + length + crc, HEADER_BYTES) == HeaderFields(generation, count, payload, 0);
    FilledParts(HeaderFields(generation, count, payload, 0), payload, n);
  }

  lemma SealHeader(generation: u64, count: u32, payload: seq<byte>, n: nat)
    requires |payload| < U32_LIMIT && HEADER_BYTES + |payload| <= n
    ensures
      Put(Filled(HeaderFields(generation, count, payload, 0) + payload, n), HEADER_CRC_OFFSET,
          LeU32(Crc32.Checksum(HeaderFields(generation, count, payload, 0))))
      == Header(generation, count, payload) + payload + Zeros(n - HEADER_BYTES - |payload|)
  {
    hide Put, Crc32.Checksum;
    var blank := HeaderFields(generation, count, payload, 0);
    var own := LeU32(Crc32.Checksum(blank));
    var rest := payload + Zeros(n - HEADER_BYTES - |payload|);
    var a := RECORD_MAGIC + LeU32(FORMAT_VERSION) + LeU32(HEADER_BYTES) + LeU64(generation)
      + LeU32(count) + LeU32(|payload|) + LeU32(Crc32.Checksum(payload));
    assert blank == Filled(a, HEADER_BYTES) by { hide LeU64; }
    PutAppends(a, HEADER_BYTES, own);
    FilledParts(blank, payload, n);
    PutInFront(blank, rest, HEADER_CRC_OFFSET, own);
    assert Filled(a + own, HEADER_BYTES) == Header(generation, count, payload);
    assert Header(generation, count, payload) + rest
        == Header(generation, count, payload) + payload + Zeros(n - HEADER_BYTES - |payload|) by { hide Header; }
  }

  lemma RecordIs(generation: u64, files: seq<Entry>)
    requires Encodable(files)
    ensures forall i :: 0 <= i < |files| ==> Storable(files[i])
    ensures RecordBytes(generation, files)
      == Header(generation, |files|, Payload(files)) + Payload(files)
         + Zeros(RecordLength(files) - HEADER_BYTES - PayloadSize(files))
  {
    hide Header, Payload, PayloadSize, Storable, ValidateTree;
    EncodableIsStorable(files);
  }

  /** Reads a record entry by entry; agrees with `RecordContents` on every input. */
  method DecodeRecord(record: seq<byte>, expectedGeneration: u64) returns (r: Result<seq<Entry>, FsError>)
    ensures r == RecordContents(record, expectedGeneration)
  {
    hide ParseEntry, U32At, U64At, U16At, Crc32.Checksum, Put, ValidateTree;
    if |record| < HEADER_BYTES {
      return Err(CorruptRecord);
    }
    var version := U32At(record, 8);
    if record[0..8] != RECORD_MAGIC || !(MIN_FORMAT_VERSION <= version <= FORMAT_VERSION)
       || U32At(record, 12) != HEADER_BYTES || U64At(record, 16) != expectedGeneration {
      return Err(CorruptRecord);
    }
    var header := Put(record[..HEADER_BYTES], HEADER_CRC_OFFSET, LeU32(0));
    var headerChecksum := Crc32.Compute(header);
    if headerChecksum != U32At(record, HEADER_CRC_OFFSET) {
      return Err(CorruptRecord);
    }
    var entryCount := U32At(record, 24);
    if entryCount > MAX_FILES {
      return Err(CorruptRecord);
    }
    var payloadEnd := HEADER_BYTES + U32At(record, 28);
    if payloadEnd > |record| {
      return Err(CorruptRecord);
    }
    var payloadChecksum := Crc32.Compute(record[HEADER_BYTES..payloadEnd]);
    if payloadChecksum != U32At(record, 32) {
      return Err(CorruptRecord);
    }
    var files: seq<Entry> := [];
    var cursor := HEADER_BYTES;
    ghost var whole := ParseEntries(record, version, cursor, payloadEnd, entryCount, []);
    for i := 0 to entryCount
      invariant HEADER_BYTES <= cursor <= payloadEnd
      invariant ParseEntries(record, version, cursor, payloadEnd, entryCount - i, files) == whole
    {
      var parsed :- ParseEntry(record, version, cursor, payloadEnd);
      if Position(files, parsed.0.name) < |files| {
        return Err(CorruptRecord);
      }
      files := files + [parsed.0];
      cursor := parsed.1;
    }
    if cursor != payloadEnd {
      return Err(CorruptRecord);
    }
    var outcome := ValidateTree(files, version != 1);
    if outcome.Fail? {
      return Err(outcome.error);
    }
    r := Ok(files);
  }
}
