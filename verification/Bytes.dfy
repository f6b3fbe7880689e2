/** Bytes, machine-word bounds and the little-endian fields that every on-disk
    and on-firmware record of the system is built from. */
module Bytes {
  import opened Arith

  type byte = x: int | 0 <= x < 256

  const U16_LIMIT: int := 0x1_0000
  const U32_LIMIT: int := 0x1_0000_0000
  const U64_LIMIT: int := 0x1_0000_0000_0000_0000

  type u16 = x: int | 0 <= x < U16_LIMIT
  type u32 = x: int | 0 <= x < U32_LIMIT
  type u64 = x: int | 0 <= x < U64_LIMIT

  function Zeros(n: nat): (s: seq<byte>)
    ensures |s| == n
  {
    seq(n, _ => 0)
  }

  function LeU16(v: u16): (s: seq<byte>)
    ensures |s| == 2
  {
    [v % 256, v / 256]
  }

  function LeU32(v: u32): (s: seq<byte>)
    ensures |s| == 4
  {
    [v % 256, v / 256 % 256, v / 256 / 256 % 256, v / 256 / 256 / 256]
  }

  function LeU64(v: u64): (s: seq<byte>)
    ensures |s| == 8
  {
    LeU32(v % U32_LIMIT) + LeU32(v / U32_LIMIT)
  }

  function FromLe16(a: byte, b: byte): (v: u16)
  {
    a + 256 * b
  }

  function FromLe32(a: byte, b: byte, c: byte, d: byte): (v: u32)
  {
    a + 0x100 * b + 0x1_0000 * c + 0x100_0000 * d
  }

  /** Whether the slice `s[at..at + n]` exists. */
  predicate Fits(s: seq<byte>, at: int, n: nat)
  {
    0 <= at && at + n <= |s|
  }

  function U16At(s: seq<byte>, at: nat): (v: u16)
    requires Fits(s, at, 2)
  {
    FromLe16(s[at], s[at + 1])
  }

  function U32At(s: seq<byte>, at: nat): (v: u32)
    requires Fits(s, at, 4)
  {
    FromLe32(s[at], s[at + 1], s[at + 2], s[at + 3])
  }

  function U64At(s: seq<byte>, at: nat): (v: u64)
    requires Fits(s, at, 8)
  {
    U32At(s, at) + U32_LIMIT * U32At(s, at + 4)
  }

  /** `s` with the bytes of `field` written at offset `at`. */
  function Put(s: seq<byte>, at: nat, field: seq<byte>): (r: seq<byte>)
    requires Fits(s, at, |field|)
    ensures |r| == |s|
    ensures forall i :: 0 <= i < |s| ==> r[i] == if at <= i < at + |field| then field[i - at] else s[i]
  {
    s[..at] + field + s[at + |field|..]
  }

  lemma FromLeU16(v: u16)
    ensures var s := LeU16(v); FromLe16(s[0], s[1]) == v
  {
  }

  lemma FromLeU32(v: u32)
    ensures var s := LeU32(v); FromLe32(s[0], s[1], s[2], s[3]) == v
  {
    var a := v / 256;
    var b := a / 256;
    assert v == 256 * a + v % 256;
    assert a == 256 * b + a % 256;
    assert b == 256 * (b / 256) + b % 256;
  }

  /** A little-endian field reads back as the value that was written. */
  lemma U16RoundTrip(s: seq<byte>, at: nat, v: u16)
    requires Fits(s, at, 2) && s[at..at + 2] == LeU16(v)
    ensures U16At(s, at) == v
  {
    var f := s[at..at + 2];
    assert s[at] == f[0] && s[at + 1] == f[1];
    FromLeU16(v);
  }

  lemma U32RoundTrip(s: seq<byte>, at: nat, v: u32)
    requires Fits(s, at, 4) && s[at..at + 4] == LeU32(v)
    ensures U32At(s, at) == v
  {
    var f := s[at..at + 4];
    assert s[at] == f[0] && s[at + 1] == f[1] && s[at + 2] == f[2] && s[at + 3] == f[3];
    FromLeU32(v);
  }

  lemma U64RoundTrip(s: seq<byte>, at: nat, v: u64)
    requires Fits(s, at, 8) && s[at..at + 8] == LeU64(v)
    ensures U64At(s, at) == v
  {
    var f := s[at..at + 8];
    assert s[at..at + 4] == f[..4] == LeU32(v % U32_LIMIT);
    assert s[at + 4..at + 8] == f[4..] == LeU32(v / U32_LIMIT);
    U32RoundTrip(s, at, v % U32_LIMIT);
    U32RoundTrip(s, at + 4, v / U32_LIMIT);
  }

  // ----- Bytes as numbers and back

  lemma LittleEndian16(b: seq<byte>, at: nat)
    requires Fits(b, at, 2)
    ensures LeU16(U16At(b, at)) == b[at..at + 2]
  {
  }

  lemma LittleEndian32(b: seq<byte>, at: nat)
    requires Fits(b, at, 4)
    ensures LeU32(U32At(b, at)) == b[at..at + 4]
  {
    var v: int := U32At(b, at);
    var c3: int := b[at + 3];
    var c2: int := b[at + 2] + 256 * c3;
    var c1: int := b[at + 1] + 256 * c2;
    DivModUnique(v, 256, c1, b[at]);
    DivModUnique(c1, 256, c2, b[at + 1]);
    DivModUnique(c2, 256, c3, b[at + 2]);
  }

  lemma LittleEndian64(b: seq<byte>, at: nat)
    requires Fits(b, at, 8)
    ensures LeU64(U64At(b, at)) == b[at..at + 8]
  {
    hide LeU32, U32At;
    LittleEndian32(b, at);
    LittleEndian32(b, at + 4);
    var low, high := U32At(b, at), U32At(b, at + 4);
    DivModUnique(U64At(b, at), U32_LIMIT, high, low);
    assert b[at..at + 8] == b[at..at + 4] + b[at + 4..at + 8];
  }

  // ----- Finding fields again

  lemma Slice(s: seq<byte>, at: nat, n: nat, i: nat, k: nat)
    requires at + n <= |s| && i + k <= n
    ensures s[at..at + n][i..i + k] == s[at + i..at + i + k]
  {
    var x, y := s[at..at + n][i..i + k], s[at + i..at + i + k];
    assert forall j :: 0 <= j < k ==> x[j] == y[j];
  }

  lemma Fields5(a: seq<byte>, b: seq<byte>, c: seq<byte>, d: seq<byte>, e: seq<byte>,
                i: nat, j: nat, k: nat, l: nat, m: nat)
    requires i == |a| && j == i + |b| && k == j + |c| && l == k + |d| && m == l + |e|
    ensures |a + b + c + d + e| == m
    ensures (a + b + c + d + e)[0..i] == a && (a + b + c + d + e)[i..j] == b && (a + b + c + d + e)[j..k] == c
    ensures (a + b + c + d + e)[k..l] == d && (a + b + c + d + e)[l..m] == e
  {
  }

  // ----- Filling a zeroed buffer from the front

  /** Copies `field` into the buffer at `at`. */
  method PutField(buffer: array<byte>, at: nat, field: seq<byte>)
    requires at + |field| <= buffer.Length
    modifies buffer
    ensures buffer[..] == Put(old(buffer[..]), at, field)
  {
    for i := 0 to |field|
      invariant forall k :: 0 <= k < buffer.Length ==>
        buffer[k] == if at <= k < at + i then field[k - at] else old(buffer[k])
    {
      buffer[at + i] := field[i];
    }
  }

  /** A buffer of `n` bytes of which a prefix has been written. */
  function Filled(written: seq<byte>, n: nat): (s: seq<byte>)
    requires |written| <= n
    ensures |s| == n
  {
    written + Zeros(n - |written|)
  }

  lemma PutAppends(written: seq<byte>, n: nat, field: seq<byte>)
    requires |written| + |field| <= n
    ensures Put(Filled(written, n), |written|, field) == Filled(written + field, n)
  {
  }

  lemma PutInFront(a: seq<byte>, b: seq<byte>, at: nat, field: seq<byte>)
    requires at + |field| <= |a|
    ensures Put(a + b, at, field) == Put(a, at, field) + b
  {
  }
}
