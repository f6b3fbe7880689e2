/** The fixed-size records of the update protocol: boot states and signed manifests. */
module UpdateFormat {
  import opened Bytes
  import opened Wrappers
  import Crc32

  const BOOT_STATE_BYTES: nat := 64
  const CRC_OFFSET: nat := 40

  /** "CDXBOOT1". */
  const BOOT_STATE_MAGIC: seq<byte> := [0x43, 0x44, 0x58, 0x42, 0x4F, 0x4F, 0x54, 0x31]

  datatype SystemSlot = A | B

  function Other(s: SystemSlot): SystemSlot
  {
    if s == A then B else A
  }

  function SlotByte(s: SystemSlot): byte
  {
    if s == A then 0 else 1
  }

  datatype BootState = BootState(generation: u64, active: SystemSlot, version: u64)

  datatype BootStateError =
    | InvalidLength
    | InvalidMagic
    | UnsupportedFormat
    | InvalidHeaderSize
    | InvalidGeneration
    | InvalidSlot
    | InvalidReleaseVersion
    | InvalidChecksum
    | NonzeroReservedBytes

  // ----- Boot states

  function BootFront(s: BootState): (b: seq<byte>)
    ensures |b| == 32
  {
    BOOT_STATE_MAGIC + LeU32(1) + LeU32(64) + LeU64(s.generation) + ([SlotByte(s.active)] + Zeros(7))
  }

  /** The record with `crc` in its checksum field. */
  function BootFields(s: BootState, crc: u32): (b: seq<byte>)
    ensures |b| == BOOT_STATE_BYTES
  {
    BootFront(s) + LeU64(s.version) + LeU32(crc) + Zeros(20)
  }

  function BootBytes(s: BootState): (b: seq<byte>)
    ensures |b| == BOOT_STATE_BYTES
  {
    BootFields(s, Crc32.Checksum(BootFields(s, 0)))
  }

  function DecodeBootState(b: seq<byte>): Result<BootState, BootStateError>
  {
    if |b| != BOOT_STATE_BYTES then Err(InvalidLength)
    else if b[0..8] != BOOT_STATE_MAGIC then Err(InvalidMagic)
    else if U32At(b, 8) != 1 then Err(UnsupportedFormat)
    else if U32At(b, 12) != BOOT_STATE_BYTES then Err(InvalidHeaderSize)
    else if U64At(b, 16) == 0 then Err(InvalidGeneration)
    else if b[24] > 1 then Err(InvalidSlot)
    else if U64At(b, 32) == 0 then Err(InvalidReleaseVersion)
    else if b[25..32] != Zeros(7) || b[44..64] != Zeros(20) then Err(NonzeroReservedBytes)
    else if Crc32.Checksum(Put(b, CRC_OFFSET, LeU32(0))) != U32At(b, CRC_OFFSET) then Err(InvalidChecksum)
    else Ok(BootState(U64At(b, 16), if b[24] == 0 then A else B, U64At(b, 32)))
  }

  /** What a boot state must say to be believed. */
  predicate Believable(s: BootState)
  {
    s.generation > 0 && s.version > 0
  }

  lemma BootLayout(s: BootState, crc: u32)
    ensures var b := BootFields(s, crc);
      && b[0..8] == BOOT_STATE_MAGIC && U32At(b, 8) == 1 && U32At(b, 12) == 64
      && U64At(b, 16) == s.generation && b[24] == SlotByte(s.active) && b[25..32] == Zeros(7)
      && U64At(b, 32) == s.version && U32At(b, CRC_OFFSET) == crc && b[44..64] == Zeros(20)
  {
    hide U32At, U64At, LeU32, LeU64;
    var b := BootFields(s, crc);
    var slot := [SlotByte(s.active)] + Zeros(7);
    Fields5(BOOT_STATE_MAGIC, LeU32(1), LeU32(64), LeU64(s.generation), slot, 8, 12, 16, 24, 32);
    Fields5(BootFront(s), LeU64(s.version), LeU32(crc), Zeros(20), [], 32, 40, 44, 64, 64);
    assert b == BootFront(s) + LeU64(s.version) + LeU32(crc) + Zeros(20) + [];
    Slice(b, 0, 32, 0, 8);
    Slice(b, 0, 32, 8, 4);
    Slice(b, 0, 32, 12, 4);
    Slice(b, 0, 32, 16, 8);
    Slice(b, 0, 32, 24, 8);
    assert b[24..32] == slot;
    assert b[24] == slot[0] && b[25..32] == slot[1..];
    U32RoundTrip(b, 8, 1);
    U32RoundTrip(b, 12, 64);
    U64RoundTrip(b, 16, s.generation);
    U64RoundTrip(b, 32, s.version);
    U32RoundTrip(b, CRC_OFFSET, crc);
  }

  lemma BootCleared(s: BootState, crc: u32)
    ensures Put(BootFields(s, crc), CRC_OFFSET, LeU32(0)) == BootFields(s, 0)
  {
    hide LeU32, LeU64, BootFront;
    var a := BootFront(s) + LeU64(s.version);
    assert Put(a + LeU32(crc) + Zeros(20), CRC_OFFSET, LeU32(0)) == a + LeU32(0) + Zeros(20);
  }

  /** Every encoded boot state is read back exactly when it is believable. */
  lemma BootStateRoundTrip(s: BootState)
    ensures DecodeBootState(BootBytes(s)) == Ok(s) <==> Believable(s)
    ensures !Believable(s) ==> DecodeBootState(BootBytes(s)).Err?
  {
    hide Crc32.Checksum, BootFields, U32At, U64At, LeU32, Put;
    var crc := Crc32.Checksum(BootFields(s, 0));
    BootLayout(s, crc);
    BootCleared(s, crc);
  }

  lemma RebuildFields(b: seq<byte>, s: BootState, crc: u32)
    requires |b| == BOOT_STATE_BYTES && b[0..8] == BOOT_STATE_MAGIC && U32At(b, 8) == 1 && U32At(b, 12) == 64
    requires U64At(b, 16) == s.generation && b[24] == SlotByte(s.active) && U64At(b, 32) == s.version
    requires b[25..32] == Zeros(7) && b[44..64] == Zeros(20) && U32At(b, CRC_OFFSET) == crc
    ensures b == BootFields(s, crc)
  {
    hide U32At, U64At, LeU32, LeU64, Zeros;
    LittleEndian32(b, 8);
    LittleEndian32(b, 12);
    LittleEndian64(b, 16);
    LittleEndian64(b, 32);
    LittleEndian32(b, CRC_OFFSET);
    assert b[24..32] == [b[24]] + b[25..32];
    assert b[0..32] == b[0..8] + b[8..12] + b[12..16] + b[16..24] + b[24..32];
    assert b == b[0..32] + b[32..40] + b[40..44] + b[44..64];
  }

  /** The encoding is canonical: only the very bytes of a boot state decode to it. */
  lemma BootStateCanonical(b: seq<byte>, s: BootState)
    ensures DecodeBootState(b) == Ok(s) <==> b == BootBytes(s) && Believable(s)
  {
    hide Crc32.Checksum, BootFields, U32At, U64At, LeU32, Put;
    if DecodeBootState(b) == Ok(s) {
      var crc := U32At(b, CRC_OFFSET);
      RebuildFields(b, s, crc);
      BootCleared(s, crc);
    }
    BootStateRoundTrip(s);
  }

  /** Damage of up to four neighbouring bytes is noticed wherever it lies, unless it touches
      both the last byte in front of the checksum and the first of the checksum. */
  lemma BootStateDamage(s: BootState, before: seq<byte>, u: seq<byte>, v: seq<byte>, after: seq<byte>)
    requires BootBytes(s) == before + u + after && |u| == |v| <= 4 && u != v
    requires |before| + |u| <= CRC_OFFSET || |before| >= CRC_OFFSET
    ensures DecodeBootState(before + v + after).Err?
  {
    if |before| + |u| <= CRC_OFFSET {
      FieldDamage(s, before, u, v, after);
    } else {
      var b, d := before + u + after, before + v + after;
      assert b[|before|..|before| + |u|] == u && d[|before|..|before| + |u|] == v;
      TailDamage(s, d);
    }
  }

  /** Any damage that leaves the bytes in front of the checksum alone is noticed. */
  lemma TailDamage(s: BootState, d: seq<byte>)
    requires |d| == BOOT_STATE_BYTES && d[..CRC_OFFSET] == BootBytes(s)[..CRC_OFFSET] && d != BootBytes(s)
    ensures DecodeBootState(d).Err?
  {
    hide Crc32.Checksum, BootFields, U32At, U64At, LeU32;
    var b := BootBytes(s);
    var crc := Crc32.Checksum(BootFields(s, 0));
    BootLayout(s, crc);
    BootCleared(s, crc);
    if d[44..64] == Zeros(20) {
      assert d == d[..40] + d[40..44] + d[44..64];
      assert b == b[..40] + b[40..44] + b[44..64];
      LittleEndian32(b, CRC_OFFSET);
      LittleEndian32(d, CRC_OFFSET);
      assert U32At(d, CRC_OFFSET) != U32At(b, CRC_OFFSET);
      assert Put(d, CRC_OFFSET, LeU32(0)) == Put(b, CRC_OFFSET, LeU32(0));
    }
  }

  lemma FieldDamage(s: BootState, before: seq<byte>, u: seq<byte>, v: seq<byte>, after: seq<byte>)
    requires BootBytes(s) == before + u + after && |u| == |v| <= 4 && u != v
    requires |before| + |u| <= CRC_OFFSET
    ensures DecodeBootState(before + v + after).Err?
  {
    hide Crc32.Checksum, BootFields, U32At, U64At, LeU32;
    var b, d := before + u + after, before + v + after;
    var crc := Crc32.Checksum(BootFields(s, 0));
    BootLayout(s, crc);
    BootCleared(s, crc);
    assert U32At(d, CRC_OFFSET) == U32At(b, CRC_OFFSET) by {
      assert d[40..44] == b[40..44];
      LittleEndian32(b, CRC_OFFSET);
      U32RoundTrip(d, CRC_OFFSET, U32At(b, CRC_OFFSET));
    }
    var rest := Put(after, CRC_OFFSET - |before| - |u|, LeU32(0));
    assert Put(b, CRC_OFFSET, LeU32(0)) == before + u + rest;
    assert Put(d, CRC_OFFSET, LeU32(0)) == before + v + rest;
    Crc32.BurstDetected(before, u, v, rest);
  }

  lemma FillFront(s: BootState)
    ensures var front := BootFront(s);
      Put(Put(Put(Put(Put(Zeros(64), 0, BOOT_STATE_MAGIC), 8, LeU32(1)), 12, LeU32(64)), 16, LeU64(s.generation)),
          24, [SlotByte(s.active)]) == front + Zeros(32)
  {
    hide LeU32, LeU64;
    var z := Zeros(64);
    assert z == Filled([], 64);
    PutAppends([], 64, BOOT_STATE_MAGIC);
    assert [] + BOOT_STATE_MAGIC == BOOT_STATE_MAGIC;
    PutAppends(BOOT_STATE_MAGIC, 64, LeU32(1));
    PutAppends(BOOT_STATE_MAGIC + LeU32(1), 64, LeU32(64));
    PutAppends(BOOT_STATE_MAGIC + LeU32(1) + LeU32(64), 64, LeU64(s.generation));
    var head := BOOT_STATE_MAGIC + LeU32(1) + LeU32(64) + LeU64(s.generation);
    PutAppends(head, 64, [SlotByte(s.active)]);
    assert head + [SlotByte(s.active)] + Zeros(39) == head + ([SlotByte(s.active)] + Zeros(7)) + Zeros(32);
  }

  lemma FillBack(s: BootState, crc: u32)
    ensures Put(BootFront(s) + Zeros(32), 32, LeU64(s.version)) == BootFields(s, 0)
    ensures Put(BootFields(s, 0), CRC_OFFSET, LeU32(crc)) == BootFields(s, crc)
  {
    hide LeU64, BootFront;
    var a := BootFront(s) + LeU64(s.version);
    assert LeU32(0) == Zeros(4);
    hide LeU32;
    assert Put(BootFront(s) + Zeros(32), 32, LeU64(s.version)) == a + Zeros(24);
    assert a + Zeros(24) == a + LeU32(0) + Zeros(20) by {
      assert Zeros(24) == Zeros(4) + Zeros(20);
    }
    assert Put(a + LeU32(0) + Zeros(20), CRC_OFFSET, LeU32(crc)) == a + LeU32(crc) + Zeros(20);
  }

  /** Fills the record field by field, then seals it with its checksum. */
  method EncodeBootState(s: BootState) returns (output: array<byte>)
    ensures fresh(output) && output[..] == BootBytes(s)
  {
    hide LeU32, LeU64, Put, BootFields, BootFront, Crc32.Checksum;
    output := new byte[BOOT_STATE_BYTES](_ => 0);
    assert output[..] == Zeros(64);
    PutField(output, 0, BOOT_STATE_MAGIC);
    PutField(output, 8, LeU32(1));
    PutField(output, 12, LeU32(64));
    PutField(output, 16, LeU64(s.generation));
    PutField(output, 24, [SlotByte(s.active)]);
    FillFront(s);
    PutField(output, 32, LeU64(s.version));
    FillBack(s, 0);
    var checksum := Crc32.Compute(output[..]);
    PutField(output, CRC_OFFSET, LeU32(checksum));
    FillBack(s, checksum);
  }

  // ----- Signed manifests

  type Digest = s: seq<byte> | |s| == 32 witness Zeros(32)
  type KeyId = s: seq<byte> | |s| == 16 witness Zeros(16)
  type Signature = s: seq<byte> | |s| == 64 witness Zeros(64)

  /** "CDXUPD1" and a zero byte. */
  const MANIFEST_MAGIC: seq<byte> := [0x43, 0x44, 0x58, 0x55, 0x50, 0x44, 0x31, 0]

  datatype Manifest = Manifest(
    format: u32,
    version: u64,
    kernelSize: u64,
    kernelDigest: Digest,
    keyId: KeyId,
    nextKey: Digest,
    nextKeyId: KeyId,
    signature: Signature)

  datatype ManifestError =
    | BadLength
    | BadMagic
    | BadFormat
    | BadHeaderSize
    | BadReleaseVersion
    | BadKernelSize
    | BadKeyId
    | BadNextTrustKey
    | BadSignature
    | ReservedBytesSet

  /** Magic, format, header size, version and kernel size. */
  function ManifestHead(format: u32, size: u32, m: Manifest): (b: seq<byte>)
    ensures |b| == 32
  {
    MANIFEST_MAGIC + LeU32(format) + LeU32(size) + LeU64(m.version) + LeU64(m.kernelSize)
  }

  /** What the signature covers, padded to 160 bytes. */
  function SigningBytes(m: Manifest): (b: seq<byte>)
    ensures |b| == 160
  {
    if m.format == 1 then ManifestHead(1, 160, m) + m.kernelDigest + m.keyId + Zeros(80)
    else ManifestHead(2, 224, m) + m.kernelDigest + m.keyId + (m.nextKey + m.nextKeyId + Zeros(32))
  }

  function ManifestBytes(m: Manifest): (b: seq<byte>)
    ensures |b| == 224
  {
    SigningBytes(m) + m.signature
  }

  function DecodeManifest(b: seq<byte>): Result<Manifest, ManifestError>
  {
    if |b| != 160 && |b| != 224 then Err(BadLength)
    else if b[0..8] != MANIFEST_MAGIC then Err(BadMagic)
    else if U64At(b, 16) == 0 then Err(BadReleaseVersion)
    else if U64At(b, 24) == 0 then Err(BadKernelSize)
    else if b[64..80] == Zeros(16) then Err(BadKeyId)
    else if U32At(b, 8) == 1 then
      if |b| != 160 || U32At(b, 12) != 160 then Err(BadHeaderSize)
      else if b[144..160] != Zeros(16) then Err(ReservedBytesSet)
      else if b[80..144] == Zeros(64) then Err(BadSignature)
      else Ok(Manifest(1, U64At(b, 16), U64At(b, 24), b[32..64], b[64..80], Zeros(32), Zeros(16), b[80..144]))
    else if U32At(b, 8) == 2 then
      if |b| != 224 || U32At(b, 12) != 224 then Err(BadHeaderSize)
      else if (b[80..112] == Zeros(32)) != (b[112..128] == Zeros(16)) then Err(BadNextTrustKey)
      else if b[128..160] != Zeros(32) then Err(ReservedBytesSet)
      else if b[160..224] == Zeros(64) then Err(BadSignature)
      else Ok(Manifest(2, U64At(b, 16), U64At(b, 24), b[32..64], b[64..80], b[80..112], b[112..128], b[160..224]))
    else Err(BadFormat)
  }

  /** What a manifest must say to survive its own encoding. */
  predicate Signed(m: Manifest)
  {
    && m.version > 0 && m.kernelSize > 0
    && m.keyId != Zeros(16) && m.signature != Zeros(64)
    && (m.nextKey == Zeros(32) <==> m.nextKeyId == Zeros(16))
  }

  lemma HeadLayout(b: seq<byte>, format: u32, size: u32, m: Manifest)
    requires |b| >= 32 && b[0..32] == ManifestHead(format, size, m)
    ensures b[0..8] == MANIFEST_MAGIC && U32At(b, 8) == format && U32At(b, 12) == size
    ensures U64At(b, 16) == m.version && U64At(b, 24) == m.kernelSize
  {
    hide U32At, U64At, LeU32, LeU64;
    Fields5(MANIFEST_MAGIC, LeU32(format), LeU32(size), LeU64(m.version), LeU64(m.kernelSize), 8, 12, 16, 24, 32);
    Slice(b, 0, 32, 0, 8);
    Slice(b, 0, 32, 8, 4);
    Slice(b, 0, 32, 12, 4);
    Slice(b, 0, 32, 16, 8);
    Slice(b, 0, 32, 24, 8);
    U32RoundTrip(b, 8, format);
    U32RoundTrip(b, 12, size);
    U64RoundTrip(b, 16, m.version);
    U64RoundTrip(b, 24, m.kernelSize);
  }

  lemma BodyLayout(head: seq<byte>, m: Manifest, tail: seq<byte>)
    requires |head| == 32 && |tail| == 80
    ensures var b := head + m.kernelDigest + m.keyId + tail + m.signature;
      b[0..32] == head && b[32..64] == m.kernelDigest && b[64..80] == m.keyId && b[80..160] == tail
      && b[160..224] == m.signature
  {
    Fields5(head, m.kernelDigest, m.keyId, tail, m.signature, 32, 64, 80, 160, 224);
  }

  /** A manifest survives its encoding exactly when it has the current format and all its
      fields are filled in; the encoder gives older ones a length the decoder refuses. */
  lemma ManifestRoundTrip(m: Manifest)
    ensures DecodeManifest(ManifestBytes(m)) == Ok(m) <==> m.format == 2 && Signed(m)
    ensures m.format == 1 ==> DecodeManifest(ManifestBytes(m)).Err?
  {
    if m.format == 1 {
      LegacyIsRefused(m);
    } else {
      CurrentRoundTrip(m);
    }
  }

  lemma LegacyIsRefused(m: Manifest)
    requires m.format == 1
    ensures DecodeManifest(ManifestBytes(m)).Err?
  {
    hide U32At, U64At, ManifestHead, Zeros;
    BodyLayout(ManifestHead(1, 160, m), m, Zeros(80));
    HeadLayout(ManifestBytes(m), 1, 160, m);
  }

  lemma CurrentRoundTrip(m: Manifest)
    requires m.format != 1
    ensures DecodeManifest(ManifestBytes(m)) == Ok(m) <==> m.format == 2 && Signed(m)
  {
    hide U32At, U64At, ManifestHead, Zeros, SigningBytes;
    var b := ManifestBytes(m);
    FieldsOfManifest(m);
    HeadLayout(b, 2, 224, m);
  }

  /** How a manifest is written in its own format; the old one is shorter and names no next key. */
  function Written(m: Manifest): (b: seq<byte>)
  {
    if m.format == 1 then ManifestHead(1, 160, m) + m.kernelDigest + m.keyId + m.signature + Zeros(16)
    else ManifestBytes(m)
  }

  lemma LegacyLayout(m: Manifest)
    requires m.format == 1
    ensures var b := Written(m);
      && |b| == 160 && b[0..32] == ManifestHead(1, 160, m) && b[32..64] == m.kernelDigest && b[64..80] == m.keyId
      && b[80..144] == m.signature && b[144..160] == Zeros(16)
  {
    hide ManifestHead, Zeros;
    Fields5(ManifestHead(1, 160, m), m.kernelDigest, m.keyId, m.signature, Zeros(16), 32, 64, 80, 144, 160);
  }

  lemma RebuildHead(b: seq<byte>, m: Manifest, size: u32)
    requires |b| >= 32 && b[0..8] == MANIFEST_MAGIC && U32At(b, 8) == m.format && U32At(b, 12) == size
    requires U64At(b, 16) == m.version && U64At(b, 24) == m.kernelSize
    ensures b[0..32] == ManifestHead(m.format, size, m)
  {
    hide U32At, U64At, LeU32, LeU64;
    LittleEndian32(b, 8);
    LittleEndian32(b, 12);
    LittleEndian64(b, 16);
    LittleEndian64(b, 24);
    assert b[0..32] == b[0..8] + b[8..12] + b[12..16] + b[16..24] + b[24..32];
  }

  lemma DecodedIsWritten(b: seq<byte>, m: Manifest)
    requires DecodeManifest(b) == Ok(m)
    ensures b == Written(m) && Signed(m) && (m.format == 1 || m.format == 2)
    ensures m.format == 1 ==> m.nextKey == Zeros(32) && m.nextKeyId == Zeros(16)
  {
    hide U32At, U64At, ManifestHead, Zeros;
    if m.format == 1 {
      RebuildHead(b, m, 160);
      assert b == b[0..32] + b[32..64] + b[64..80] + b[80..144] + b[144..160];
    } else {
      RebuildHead(b, m, 224);
      assert b[80..160] == b[80..112] + b[112..128] + b[128..160];
      assert b == b[0..32] + b[32..64] + b[64..80] + b[80..160] + b[160..224];
    }
  }

  lemma LegacyRoundTrip(m: Manifest)
    requires m.format == 1 && Signed(m) && m.nextKey == Zeros(32) && m.nextKeyId == Zeros(16)
    ensures DecodeManifest(Written(m)) == Ok(m)
  {
    hide U32At, U64At, ManifestHead, Zeros;
    LegacyLayout(m);
    var b := Written(m);
    hide Written;
    HeadLayout(b, 1, 160, m);
  }

  /** The encoding is canonical in both formats: only the very bytes of a complete manifest decode to it. */
  lemma ManifestCanonical(b: seq<byte>, m: Manifest)
    ensures DecodeManifest(b) == Ok(m) <==>
      && b == Written(m) && Signed(m) && (m.format == 1 || m.format == 2)
      && (m.format == 1 ==> m.nextKey == Zeros(32) && m.nextKeyId == Zeros(16))
  {
    hide DecodeManifest, ManifestBytes, ManifestHead, Zeros;
    if DecodeManifest(b) == Ok(m) {
      DecodedIsWritten(b, m);
    } else if m.format == 2 {
      ManifestRoundTrip(m);
    } else if m.format == 1 && Signed(m) && m.nextKey == Zeros(32) && m.nextKeyId == Zeros(16) {
      LegacyRoundTrip(m);
    }
  }

  /** The signature covers every field but itself: equal signing bytes mean equal fields. */
  lemma SigningBytesDetermine(m: Manifest, n: Manifest)
    requires m.format == n.format == 2 && SigningBytes(m) == SigningBytes(n)
    ensures m == n.(signature := m.signature)
  {
    hide U32At, U64At, ManifestHead, Zeros;
    var a, b := SigningBytes(m) + m.signature, SigningBytes(n) + n.signature;
    FieldsOfManifest(m);
    FieldsOfManifest(n);
    var s := SigningBytes(m);
    assert a[..160] == s == b[..160];
    assert a[32..64] == s[32..64] == b[32..64] && a[64..80] == s[64..80] == b[64..80];
    assert a[80..112] == s[80..112] == b[80..112] && a[112..128] == s[112..128] == b[112..128];
    assert a[0..32] == s[0..32] == b[0..32];
    HeadLayout(a, 2, 224, m);
    HeadLayout(a, 2, 224, n);
  }

  lemma FieldsOfManifest(m: Manifest)
    requires m.format != 1
    ensures var b := ManifestBytes(m);
      b[0..32] == ManifestHead(2, 224, m) && b[32..64] == m.kernelDigest && b[64..80] == m.keyId
      && b[80..112] == m.nextKey && b[112..128] == m.nextKeyId && b[128..160] == Zeros(32) && b[160..224] == m.signature
  {
    hide ManifestHead, Zeros;
    var b := ManifestBytes(m);
    var tail := m.nextKey + m.nextKeyId + Zeros(32);
    BodyLayout(ManifestHead(2, 224, m), m, tail);
    Fields5(m.nextKey, m.nextKeyId, Zeros(32), [], [], 32, 48, 80, 80, 80);
    assert tail == m.nextKey + m.nextKeyId + Zeros(32) + [] + [];
    Slice(b, 80, 80, 0, 32);
    Slice(b, 80, 80, 32, 16);
    Slice(b, 80, 80, 48, 32);
  }
}
