/** The reflected CRC-32 that guards superblocks, records and boot-state records,
    and the burst-detection theorem it is chosen for.

    The 32-bit register is a sequence of 32 bits, least significant first, so
    `crc >> 1` drops the first bit and exclusive-or works bit by bit. */
module Crc32 {
  import opened Bytes

  type Word = w: seq<bool> | |w| == 32 witness seq(32, _ => false)

  function Pow2(n: nat): (p: nat)
    ensures p > 0
  {
    if n == 0 then 1 else 2 * Pow2(n - 1)
  }

  /** The `n` low bits of `v`, least significant first. */
  function Bits(v: nat, n: nat): (s: seq<bool>)
    ensures |s| == n
  {
    if n == 0 then [] else [v % 2 == 1] + Bits(v / 2, n - 1)
  }

  /** The number written by the bits `s`. */
  function Value(s: seq<bool>): (v: nat)
    ensures v < Pow2(|s|)
  {
    if s == [] then 0 else (if s[0] then 1 else 0) + 2 * Value(s[1..])
  }

  lemma {:induction false} BitsOfValue(s: seq<bool>)
    ensures Bits(Value(s), |s|) == s
  {
    if s != [] {
      BitsOfValue(s[1..]);
      assert s == [s[0]] + s[1..];
    }
  }

  lemma {:induction false} ValueOfBits(v: nat, n: nat)
    requires v < Pow2(n)
    ensures Value(Bits(v, n)) == v
  {
    if n > 0 {
      ValueOfBits(v / 2, n - 1);
      assert Bits(v, n)[1..] == Bits(v / 2, n - 1);
    }
  }

  lemma ByteBitsInjective(a: byte, b: byte)
    requires Bits(a, 8) == Bits(b, 8)
    ensures a == b
  {
    assert Pow2(8) == 256;
    ValueOfBits(a, 8);
    ValueOfBits(b, 8);
  }

  /** 0xedb88320: the bytes 0x20, 0x83, 0xb8 and 0xed, each least significant bit first. */
  function Polynomial(): (w: Word)
    ensures w[31]
  {
    [false, false, false, false, false, true, false, false,
     true, true, false, false, false, false, false, true,
     false, false, false, true, true, true, false, true,
     true, false, true, true, false, true, true, true]
  }

  function Zero(): (w: Word) { seq(32, _ => false) }
  function Ones(): (w: Word) { seq(32, _ => true) }

  function Xor(x: Word, y: Word): (z: Word)
  {
    seq(32, i requires 0 <= i < 32 => x[i] != y[i])
  }

  function Not(x: Word): (z: Word)
  {
    seq(32, i requires 0 <= i < 32 => !x[i])
  }

  /** A byte as the low bits of a register. */
  function Widen(b: byte): (w: Word)
  {
    Bits(b, 8) + seq(24, _ => false)
  }

  /** One round: shift right, then subtract the polynomial when a bit fell out. */
  function Step(x: Word): (z: Word)
  {
    seq(32, i requires 0 <= i < 32 => (i < 31 && x[i + 1]) != (x[0] && Polynomial()[i]))
  }

  function Steps(x: Word, n: nat): (z: Word)
  {
    if n == 0 then x else Step(Steps(x, n - 1))
  }

  function Absorb(crc: Word, b: byte): (z: Word)
  {
    Steps(Xor(crc, Widen(b)), 8)
  }

  function Register(start: Word, bytes: seq<byte>): (z: Word)
  {
    if bytes == [] then start else Absorb(Register(start, bytes[..|bytes| - 1]), bytes[|bytes| - 1])
  }

  function Checksum(bytes: seq<byte>): (r: u32)
  {
    ThirtyTwoBits();
    Value(Not(Register(Ones(), bytes)))
  }

  lemma ThirtyTwoBits()
    ensures Pow2(32) == U32_LIMIT
  {
    assert Pow2(8) == 256;
    assert Pow2(16) == 0x1_0000;
    assert Pow2(24) == 0x100_0000;
  }

  method Compute(bytes: seq<byte>) returns (checksum: u32)
    ensures checksum == Checksum(bytes)
  {
    var crc := Ones();
    for i := 0 to |bytes|
      invariant crc == Register(Ones(), bytes[..i])
    {
      assert bytes[..i + 1][..i] == bytes[..i];
      crc := Xor(crc, Widen(bytes[i]));
      ghost var start := crc;
      for k := 0 to 8
        invariant crc == Steps(start, k)
      {
        crc := Step(crc);
      }
    }
    assert bytes[..|bytes|] == bytes;
    ThirtyTwoBits();
    checksum := Value(Not(crc));
  }

  // ----- One round is linear and loses nothing

  lemma StepInjective(x: Word, y: Word)
    requires Step(x) == Step(y)
    ensures x == y
  {
    assert Polynomial()[31];
    assert Step(x)[31] == x[0] && Step(y)[31] == y[0];
    forall i | 0 < i < 32
      ensures x[i] == y[i]
    {
      assert Step(x)[i - 1] == Step(y)[i - 1];
    }
  }

  lemma {:induction false} StepsInjective(x: Word, y: Word, n: nat)
    requires Steps(x, n) == Steps(y, n)
    ensures x == y
  {
    if n > 0 {
      StepInjective(Steps(x, n - 1), Steps(y, n - 1));
      StepsInjective(x, y, n - 1);
    }
  }

  lemma StepLinear(x: Word, y: Word)
    ensures Step(Xor(x, y)) == Xor(Step(x), Step(y))
  {
  }

  lemma {:induction false} StepsLinear(x: Word, y: Word, n: nat)
    ensures Steps(Xor(x, y), n) == Xor(Steps(x, n), Steps(y, n))
  {
    if n > 0 {
      StepsLinear(x, y, n - 1);
      StepLinear(Steps(x, n - 1), Steps(y, n - 1));
    }
  }

  lemma {:induction false} StepsCompose(x: Word, m: nat, n: nat)
    ensures Steps(Steps(x, m), n) == Steps(x, m + n)
  {
    if n > 0 {
      StepsCompose(x, m, n - 1);
    }
  }

  lemma {:induction false} StepsOfZero(n: nat)
    ensures Steps(Zero(), n) == Zero()
  {
    if n > 0 {
      StepsOfZero(n - 1);
      assert Step(Zero()) == Zero();
    }
  }

  /** While the bits that fall out are clear, rounds only shift. */
  lemma {:induction false} StepsShift(x: Word, n: nat)
    requires n <= 32
    requires forall i :: 0 <= i < n ==> !x[i]
    ensures forall i :: 0 <= i < 32 ==> Steps(x, n)[i] == (i + n < 32 && x[i + n])
  {
    if n > 0 {
      StepsShift(x, n - 1);
      var y := Steps(x, n - 1);
      assert !y[0];
    }
  }

  // ----- How a difference travels

  lemma {:induction false} RegisterAppend(start: Word, a: seq<byte>, b: seq<byte>)
    ensures Register(start, a + b) == Register(Register(start, a), b)
  {
    if b == [] {
      assert a + b == a;
    } else {
      var last := |b| - 1;
      assert (a + b)[..|a + b| - 1] == a + b[..last];
      RegisterAppend(start, a, b[..last]);
    }
  }

  lemma {:induction false} EqualTailKeepsDifference(x: Word, y: Word, tail: seq<byte>)
    requires x != y
    ensures Register(x, tail) != Register(y, tail)
  {
    if tail != [] {
      var n := |tail| - 1;
      EqualTailKeepsDifference(x, y, tail[..n]);
      var p, q := Register(x, tail[..n]), Register(y, tail[..n]);
      var w := Widen(tail[n]);
      if Absorb(p, tail[n]) == Absorb(q, tail[n]) {
        StepsInjective(Xor(p, w), Xor(q, w), 8);
        forall i | 0 <= i < 32
          ensures p[i] == q[i]
        {
          assert Xor(p, w)[i] == Xor(q, w)[i];
        }
        assert false;
      }
    }
  }

  /** The bits in which two short strings differ, first byte lowest. */
  function Window(u: seq<byte>, v: seq<byte>): (w: Word)
    requires |u| == |v| <= 4
  {
    seq(32, i requires 0 <= i < 32 =>
      i / 8 < |u| && Bits(u[i / 8], 8)[i % 8] != Bits(v[i / 8], 8)[i % 8])
  }

  lemma XorSwaps(p: Word, a: Word, q: Word, b: Word)
    ensures Xor(Xor(p, a), Xor(q, b)) == Xor(Xor(p, q), Xor(a, b))
  {
    assert forall i :: 0 <= i < 32 ==> Xor(Xor(p, a), Xor(q, b))[i] == Xor(Xor(p, q), Xor(a, b))[i];
  }

  /** After a window, the two registers differ by the window's bits run through
      eight rounds per byte. */
  /** After the steps of its first m bytes, the last byte of a window has come down to the bottom. */
  lemma LastByte(u: seq<byte>, v: seq<byte>, m: nat)
    requires |u| == |v| == m + 1 <= 4
    ensures Steps(Window(u, v), 8 * m)
         == Xor(Steps(Window(u[..m], v[..m]), 8 * m), Xor(Widen(u[m]), Widen(v[m])))
  {
    hide Widen, Steps;
    var low := Window(u[..m], v[..m]);
    var high := Xor(Window(u, v), low);
    TopByte(u, v, m, high);
    StepsShift(high, 8 * m);
    assert Window(u, v) == Xor(low, high);
    StepsLinear(low, high, 8 * m);
  }

  lemma {:induction false} WindowDifference(x: Word, u: seq<byte>, v: seq<byte>)
    requires |u| == |v| <= 4
    ensures Xor(Register(x, u), Register(x, v)) == Steps(Window(u, v), 8 * |u|)
  {
    hide Widen, Window, Steps;
    if |u| == 0 {
      NothingDiffers(x, u, v);
    } else {
      var m := |u| - 1;
      var u0, v0 := u[..m], v[..m];
      WindowDifference(x, u0, v0);
      var p, q := Register(x, u0), Register(x, v0);
      var a, b := Widen(u[m]), Widen(v[m]);
      LastByte(u, v, m);
      XorSwaps(p, a, q, b);
      StepsLinear(Xor(p, a), Xor(q, b), 8);
      StepsCompose(Window(u, v), 8 * m, 8);
    }
  }

  lemma NothingDiffers(x: Word, u: seq<byte>, v: seq<byte>)
    requires u == v == []
    ensures Xor(x, x) == Steps(Window(u, v), 0)
  {
    assert Xor(x, x) == Zero() == Window(u, v);
  }

  lemma TopByte(u: seq<byte>, v: seq<byte>, m: nat, high: Word)
    requires m + 1 == |u| == |v| <= 4
    requires high == Xor(Window(u, v), Window(u[..m], v[..m]))
    ensures forall i :: 0 <= i < 8 * m ==> !high[i]
    ensures forall i :: 0 <= i < 32 ==>
      (i + 8 * m < 32 && high[i + 8 * m]) == Xor(Widen(u[m]), Widen(v[m]))[i]
  {
    forall i | 0 <= i < 8 * m
      ensures !high[i]
    {
      assert u[..m][i / 8] == u[i / 8] && v[..m][i / 8] == v[i / 8];
    }
    forall i | 0 <= i < 32
      ensures (i + 8 * m < 32 && high[i + 8 * m]) == Xor(Widen(u[m]), Widen(v[m]))[i]
    {
      if i < 8 {
        assert (i + 8 * m) / 8 == m && (i + 8 * m) % 8 == i;
        assert !Window(u[..m], v[..m])[i + 8 * m];
      } else if i + 8 * m < 32 {
        assert (i + 8 * m) / 8 > m;
      }
    }
  }

  lemma DifferentBit(a: byte, b: byte) returns (j: nat)
    requires a != b
    ensures j < 8 && Bits(a, 8)[j] != Bits(b, 8)[j]
  {
    hide Bits;
    if forall j :: 0 <= j < 8 ==> Bits(a, 8)[j] == Bits(b, 8)[j] {
      ByteBitsInjective(a, b);
      assert false;
    }
    j :| 0 <= j < 8 && Bits(a, 8)[j] != Bits(b, 8)[j];
  }

  lemma WindowNotZero(u: seq<byte>, v: seq<byte>)
    requires |u| == |v| <= 4 && u != v
    ensures Window(u, v) != Zero()
  {
    hide Bits;
    var k :| 0 <= k < |u| && u[k] != v[k];
    var j := DifferentBit(u[k], v[k]);
    assert (8 * k + j) / 8 == k && (8 * k + j) % 8 == j;
    assert Window(u, v)[8 * k + j];
    assert !Zero()[8 * k + j];
  }

  lemma ValueInjective(x: seq<bool>, y: seq<bool>)
    requires |x| == |y| && Value(x) == Value(y)
    ensures x == y
  {
    BitsOfValue(x);
    BitsOfValue(y);
  }

  /** Two strings of the same length that differ only inside one window of at most
      four bytes never share a checksum, whatever surrounds the window. */
  lemma BurstDetected(before: seq<byte>, u: seq<byte>, v: seq<byte>, after: seq<byte>)
    requires |u| == |v| <= 4 && u != v
    ensures Checksum(before + u + after) != Checksum(before + v + after)
  {
    hide Register, Steps, Window, Bits;
    var x := Register(Ones(), before);
    var p, q := Register(x, u), Register(x, v);
    WindowDifference(x, u, v);
    WindowNotZero(u, v);
    if p == q {
      assert Xor(p, q) == Zero();
      StepsOfZero(8 * |u|);
      StepsInjective(Window(u, v), Zero(), 8 * |u|);
      assert false;
    }
    EqualTailKeepsDifference(p, q, after);
    RegisterAppend(Ones(), before, u);
    RegisterAppend(Ones(), before, v);
    RegisterAppend(Ones(), before + u, after);
    RegisterAppend(Ones(), before + v, after);
    var r, s := Register(p, after), Register(q, after);
    if Value(Not(r)) == Value(Not(s)) {
      ValueInjective(Not(r), Not(s));
      forall i | 0 <= i < 32
        ensures r[i] == s[i]
      {
        assert Not(r)[i] == Not(s)[i];
      }
      assert false;
    }
  }
}
