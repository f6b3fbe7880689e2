/** Which bytes decode to a list of files, for every record format: exactly those that spell the
    list out. */
module FsDecode {
  import opened Bytes
  import opened Wrappers
  import opened FsPath
  import opened FsTree
  import opened FsRecord
  import Crc32

  /** What a record of this format can say about an entry. */
  predicate Expressible(version: u32, e: Entry)
  {
    && ValidPath(e.name) && |e.name| <= MAX_PATH_BYTES && |e.data| < U32_LIMIT && e.permissions < PERMISSION_LIMIT
    && (e.kind == Directory ==> e.data == [])
    && (version == 1 ==> e.kind == File && e.permissions == DEFAULT_FILE_PERMISSIONS)
  }

  function MetaSize(version: u32): nat
  {
    if version == 1 then LEGACY_ENTRY_BYTES else ENTRY_BYTES
  }

  /** The first format knows names and data only. */
  function MetaOf(version: u32, e: Entry): (s: seq<byte>)
    requires Expressible(version, e)
    ensures |s| == MetaSize(version)
  {
    if version == 1 then LeU16(|e.name|) + LeU16(0) + LeU32(|e.data|)
    else LeU16(|e.name|) + LeU16(EncodeKind(e.kind)) + LeU32(|e.data|) + LeU16(e.permissions) + LeU16(0)
  }

  function BytesOf(version: u32, e: Entry): (s: seq<byte>)
    requires Expressible(version, e)
    ensures |s| == MetaSize(version) + |e.name| + |e.data|
  {
    MetaOf(version, e) + e.name + e.data
  }

  predicate AllExpressible(version: u32, files: seq<Entry>)
  {
    forall i :: 0 <= i < |files| ==> Expressible(version, files[i])
  }

  /** The entries one behind the other. */
  function Spelled(version: u32, files: seq<Entry>): seq<byte>
    requires AllExpressible(version, files)
  {
    if files == [] then [] else BytesOf(version, files[0]) + Spelled(version, files[1..])
  }

  // ----- One entry

  lemma MetaFields(record: seq<byte>, version: u32, at: nat, e: Entry)
    requires Expressible(version, e) && at + MetaSize(version) <= |record|
    requires record[at..at + MetaSize(version)] == MetaOf(version, e)
    ensures U16At(record, at) == |e.name| && U32At(record, at + 4) == |e.data|
    ensures U16At(record, at + 2) == if version == 1 then 0 else EncodeKind(e.kind)
    ensures version != 1 ==> U16At(record, at + 8) == e.permissions && U16At(record, at + 10) == 0
  {
    hide ValidPath, Utf8, LeU16, LeU32, U16At, U32At;
    var n, d := LeU16(|e.name|), LeU32(|e.data|);
    if version == 1 {
      Fields5(n, LeU16(0), d, [], [], 2, 4, 8, 8, 8);
      assert MetaOf(version, e) == n + LeU16(0) + d + [] + [];
    } else {
      Fields5(n, LeU16(EncodeKind(e.kind)), d, LeU16(e.permissions), LeU16(0), 2, 4, 8, 10, 12);
      Slice(record, at, 12, 8, 2);
      Slice(record, at, 12, 10, 2);
      U16RoundTrip(record, at + 8, e.permissions);
      U16RoundTrip(record, at + 10, 0);
    }
    Slice(record, at, MetaSize(version), 0, 2);
    Slice(record, at, MetaSize(version), 2, 2);
    Slice(record, at, MetaSize(version), 4, 4);
    U16RoundTrip(record, at, |e.name|);
    U16RoundTrip(record, at + 2, if version == 1 then 0 else EncodeKind(e.kind));
    U32RoundTrip(record, at + 4, |e.data|);
  }

  /** The bytes of an entry are read as that entry. */
  lemma EntryIsRead(record: seq<byte>, version: u32, at: nat, end: nat, e: Entry)
    requires Expressible(version, e) && at + |BytesOf(version, e)| <= end <= |record|
    requires record[at..at + |BytesOf(version, e)|] == BytesOf(version, e)
    ensures ParseEntry(record, version, at, end) == Ok((e, at + |BytesOf(version, e)|))
  {
    hide ValidPath, Utf8, U16At, U32At, MetaOf;
    var m, total := MetaSize(version), |BytesOf(version, e)|;
    Fields5(MetaOf(version, e), e.name, e.data, [], [], m, m + |e.name|, total, total, total);
    assert BytesOf(version, e) == MetaOf(version, e) + e.name + e.data + [] + [];
    Slice(record, at, total, 0, m);
    Slice(record, at, total, m, |e.name|);
    Slice(record, at, total, m + |e.name|, |e.data|);
    MetaFields(record, version, at, e);
  }

  /** Whatever is read as an entry is the bytes of it. */
  lemma ReadIsEntry(record: seq<byte>, version: u32, at: nat, end: nat)
    requires at <= end <= |record| && ParseEntry(record, version, at, end).Ok?
    ensures var (e, next) := ParseEntry(record, version, at, end).value;
      && Expressible(version, e) && next == at + |BytesOf(version, e)| <= end
      && record[at..next] == BytesOf(version, e)
  {
    hide ValidPath, Utf8, U16At, U32At, MetaOf;
    var (e, next) := ParseEntry(record, version, at, end).value;
    PathIsShort(e.name);
    var m := MetaSize(version);
    assert |e.name| == U16At(record, at) && |e.data| == U32At(record, at + 4);
    MetaIsRead(record, version, at, e);
    assert record[at..next] == record[at..at + m] + record[at + m..at + m + |e.name|] + record[at + m + |e.name|..next];
  }

  lemma PathIsShort(name: Name)
    ensures ValidPath(name) ==> |name| <= MAX_PATH_BYTES
  {
  }

  lemma MetaIsRead(record: seq<byte>, version: u32, at: nat, e: Entry)
    requires Expressible(version, e) && at + MetaSize(version) <= |record|
    requires |e.name| == U16At(record, at) && |e.data| == U32At(record, at + 4)
    requires U16At(record, at + 2) == if version == 1 then 0 else EncodeKind(e.kind)
    requires version != 1 ==> U16At(record, at + 8) == e.permissions && U16At(record, at + 10) == 0
    ensures record[at..at + MetaSize(version)] == MetaOf(version, e)
  {
    hide ValidPath, Utf8, U16At, U32At, LeU16, LeU32;
    LittleEndian16(record, at);
    LittleEndian16(record, at + 2);
    LittleEndian32(record, at + 4);
    var front := record[at..at + 2] + record[at + 2..at + 4] + record[at + 4..at + 8];
    if version == 1 {
      assert record[at..at + 8] == front;
    } else {
      LittleEndian16(record, at + 8);
      LittleEndian16(record, at + 10);
      assert record[at..at + 12] == front + record[at + 8..at + 10] + record[at + 10..at + 12];
    }
  }

  // ----- All entries

  lemma {:induction false} SpelledParts(version: u32, files: seq<Entry>)
    requires AllExpressible(version, files) && files != []
    ensures AllExpressible(version, files[1..]) && Expressible(version, files[0])
    ensures Spelled(version, files) == BytesOf(version, files[0]) + Spelled(version, files[1..])
  {
  }

  /** Spelled-out entries with new and distinct names are read one after the other. */
  lemma {:induction false} EntriesAreRead(record: seq<byte>, version: u32, at: nat, end: nat, files: seq<Entry>,
                                          seen: seq<Entry>)
    requires AllExpressible(version, files) && Distinct(seen + files)
    requires at + |Spelled(version, files)| <= end <= |record|
    requires record[at..at + |Spelled(version, files)|] == Spelled(version, files)
    ensures ParseEntries(record, version, at, end, |files|, seen) ==
      Ok((seen + files, at + |Spelled(version, files)|))
    decreases |files|
  {
    hide ParseEntry, BytesOf, Expressible, Spelled, Distinct, AllExpressible;
    if files == [] {
      NothingSpelled(version);
      assert seen + files == seen;
    } else {
      SpelledParts(version, files);
      var e, rest := files[0], files[1..];
      var n := |BytesOf(version, e)|;
      SpelledSlices(record, at, BytesOf(version, e), Spelled(version, rest), Spelled(version, files));
      EntryIsRead(record, version, at, end, e);
      NewName(seen, files);
      assert seen + files == seen + [e] + rest;
      EntriesAreRead(record, version, at + n, end, rest, seen + [e]);
    }
  }

  lemma NothingSpelled(version: u32)
    ensures AllExpressible(version, []) && Spelled(version, []) == []
  {
  }

  lemma SpelledSlices(record: seq<byte>, at: nat, first: seq<byte>, rest: seq<byte>, total: seq<byte>)
    requires total == first + rest && at + |total| <= |record| && record[at..at + |total|] == total
    ensures record[at..at + |first|] == first && record[at + |first|..at + |first| + |rest|] == rest
  {
    Slice(record, at, |total|, 0, |first|);
    Slice(record, at, |total|, |first|, |rest|);
  }

  lemma NewName(seen: seq<Entry>, files: seq<Entry>)
    requires files != [] && Distinct(seen + files)
    ensures Position(seen, files[0].name) == |seen|
  {
    var all := seen + files;
    forall i | 0 <= i < |seen|
      ensures seen[i].name != files[0].name
    {
      assert all[i] == seen[i] && all[|seen|] == files[0];
    }
  }

  /** Whatever is read is spelled out in the record, under distinct names. */
  lemma {:induction false} ReadAreEntries(record: seq<byte>, version: u32, at: nat, end: nat, count: nat,
                                          seen: seq<Entry>)
    returns (files: seq<Entry>)
    requires at <= end <= |record| && Distinct(seen)
    requires ParseEntries(record, version, at, end, count, seen).Ok?
    ensures var (all, next) := ParseEntries(record, version, at, end, count, seen).value;
      && all == seen + files && |files| == count && Distinct(all) && AllExpressible(version, files)
      && next == at + |Spelled(version, files)| <= end && record[at..next] == Spelled(version, files)
    decreases count
  {
    hide ParseEntry, BytesOf, Expressible, Spelled, Distinct, AllExpressible;
    if count == 0 {
      files := [];
      NothingSpelled(version);
      assert seen + files == seen;
    } else {
      ParseStep(record, version, at, end, count, seen);
      hide ParseEntries, Position;
      ReadIsEntry(record, version, at, end);
      var (e, next) := ParseEntry(record, version, at, end).value;
      OneMoreDistinct(seen, e);
      var rest := ReadAreEntries(record, version, next, end, count - 1, seen + [e]);
      files := [e] + rest;
      OneMoreSpelled(version, e, rest);
      assert seen + files == seen + [e] + rest;
      var last := next + |Spelled(version, rest)|;
      assert record[at..last] == record[at..next] + record[next..last];
    }
  }

  lemma OneMoreDistinct(seen: seq<Entry>, e: Entry)
    requires Distinct(seen) && Position(seen, e.name) == |seen|
    ensures Distinct(seen + [e])
  {
  }

  lemma OneMoreSpelled(version: u32, e: Entry, rest: seq<Entry>)
    requires Expressible(version, e) && AllExpressible(version, rest)
    ensures AllExpressible(version, [e] + rest)
    ensures Spelled(version, [e] + rest) == BytesOf(version, e) + Spelled(version, rest)
  {
    hide Expressible, BytesOf;
    var files := [e] + rest;
    assert files[0] == e && files[1..] == rest;
  }

  // ----- The whole record

  /** The record spells out the list in the given format: a sealed header, the entries, and anything
      behind them. */
  ghost predicate SpeltOut(record: seq<byte>, version: u32, generation: u64, files: seq<Entry>)
  {
    && MIN_FORMAT_VERSION <= version <= FORMAT_VERSION && |files| <= MAX_FILES
    && AllExpressible(version, files) && |Spelled(version, files)| < U32_LIMIT
    && exists rest: seq<byte>, tail: seq<byte> :: |rest| == 24
         && record == SealedHeader(version, generation, |files|, Spelled(version, files), rest)
                      + Spelled(version, files) + tail
  }

  /** The record spells out the list, in one of the formats, and the list is a sound tree of distinct names. */
  ghost predicate Says(record: seq<byte>, generation: u64, files: seq<Entry>)
  {
    exists version: u32 ::
      SpeltOut(record, version, generation, files) && Distinct(files) && ValidateTree(files, version != 1).Pass?
  }

  /** The same, as the decoder sees it. */
  ghost predicate Holds(record: seq<byte>, generation: u64, files: seq<Entry>)
  {
    && GoodHeader(record, generation)
    && var version, end := U32At(record, 8), HEADER_BYTES + U32At(record, 28);
       && U32At(record, 24) == |files| && Distinct(files) && AllExpressible(version, files)
       && record[HEADER_BYTES..end] == Spelled(version, files)
       && ValidateTree(files, version != 1).Pass?
  }

  lemma HeldIsSaid(record: seq<byte>, generation: u64, files: seq<Entry>)
    requires Holds(record, generation, files)
    ensures Says(record, generation, files)
  {
    hide U32At, Spelled, ValidateTree, SealedHeader, Distinct, AllExpressible;
    var version, end := U32At(record, 8), HEADER_BYTES + U32At(record, 28);
    HeaderRebuilt(record, generation);
    HeaderVersion(record, generation);
    hide GoodHeader;
    var payload, rest, tail := Spelled(version, files), record[40..64], record[end..];
    assert record == record[..HEADER_BYTES] + record[HEADER_BYTES..end] + tail;
    assert record == SealedHeader(version, generation, |files|, payload, rest) + payload + tail;
    assert SpeltOut(record, version, generation, files);
  }

  lemma HeaderVersion(record: seq<byte>, generation: u64)
    requires GoodHeader(record, generation)
    ensures MIN_FORMAT_VERSION <= U32At(record, 8) <= FORMAT_VERSION && U32At(record, 24) <= MAX_FILES
  {
    hide U32At, U64At, Crc32.Checksum, Put;
  }

  lemma SaidIsHeld(record: seq<byte>, generation: u64, files: seq<Entry>)
    requires Says(record, generation, files)
    ensures Holds(record, generation, files)
  {
    hide U32At, Spelled, ValidateTree, SealedHeader, Distinct, AllExpressible, GoodHeader;
    var version: u32 :|
      SpeltOut(record, version, generation, files) && Distinct(files) && ValidateTree(files, version != 1).Pass?;
    var payload := Spelled(version, files);
    var rest: seq<byte>, tail: seq<byte> :| |rest| == 24
      && record == SealedHeader(version, generation, |files|, payload, rest) + payload + tail;
    var end := HEADER_BYTES + |payload|;
    assert record[..HEADER_BYTES] == SealedHeader(version, generation, |files|, payload, rest);
    assert record[HEADER_BYTES..end] == payload;
    HeaderIsGood(record, version, generation, |files|, payload, rest);
  }

  /** A record is decoded to a list of files exactly when it spells it out. */
  lemma DecodesIff(record: seq<byte>, generation: u64, files: seq<Entry>)
    ensures RecordContents(record, generation) == Ok(files) <==> Says(record, generation, files)
  {
    hide Holds, Says, RecordContents;
    DecodesHeld(record, generation, files);
    if Holds(record, generation, files) {
      HeldIsSaid(record, generation, files);
    }
    if Says(record, generation, files) {
      SaidIsHeld(record, generation, files);
    }
  }

  lemma DecodesHeld(record: seq<byte>, generation: u64, files: seq<Entry>)
    ensures RecordContents(record, generation) == Ok(files) <==> Holds(record, generation, files)
  {
    hide U32At, ParseEntries, Spelled, ValidateTree, GoodHeader;
    if GoodHeader(record, generation) {
      HeaderBounds(record, generation);
      var version, end := U32At(record, 8), HEADER_BYTES + U32At(record, 28);
      if RecordContents(record, generation) == Ok(files) {
        var read := ReadAreEntries(record, version, HEADER_BYTES, end, U32At(record, 24), []);
        assert [] + read == read;
      }
      if Holds(record, generation, files) {
        assert [] + files == files;
        EntriesAreRead(record, version, HEADER_BYTES, end, files, []);
      }
    }
  }

  lemma HeaderBounds(record: seq<byte>, generation: u64)
    requires GoodHeader(record, generation)
    ensures |record| >= HEADER_BYTES && HEADER_BYTES + U32At(record, 28) <= |record|
  {
    hide U32At, U64At, Crc32.Checksum, Put;
  }
}
