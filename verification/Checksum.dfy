/** The Internet checksum (section 1 of RFC 1071): one's-complement sums of 16-bit words. */
module Checksum {
  import opened Arith
  import opened Bytes

  /** The sum of the big-endian 16-bit words; an odd last byte is padded with zero. */
  function WordSum(bytes: seq<byte>): (sum: nat)
  {
    if bytes == [] then 0
    else if |bytes| == 1 then 256 * bytes[0]
    else 256 * bytes[0] + bytes[1] + WordSum(bytes[2..])
  }

  lemma {:induction false} WordSumBound(bytes: seq<byte>)
    ensures WordSum(bytes) <= (|bytes| + 1) / 2 * 0xFFFF
  {
    if |bytes| > 1 {
      WordSumBound(bytes[2..]);
      assert (|bytes| + 1) / 2 == (|bytes[2..]| + 1) / 2 + 1;
    }
  }

  lemma {:induction false} WordSumConcat(a: seq<byte>, b: seq<byte>)
    requires |a| % 2 == 0
    ensures WordSum(a + b) == WordSum(a) + WordSum(b)
  {
    if a == [] {
      assert a + b == b;
    } else {
      WordSumConcat(a[2..], b);
      assert (a + b)[2..] == a[2..] + b;
    }
  }

  /** Carries folded back in: the representative of the sum modulo 65535, where only an
      empty sum is zero. */
  function Fold(sum: nat): (r: nat)
    ensures r <= 0xFFFF
    ensures r == 0 <==> sum == 0
  {
    if sum == 0 then 0 else (sum - 1) % 0xFFFF + 1
  }

  function Finish(sum: nat): (r: u16)
  {
    0xFFFF - Fold(sum)
  }

  lemma ModUnique(v: nat, q: nat, r: nat)
    requires v == 0xFFFF * q + r && r < 0xFFFF
    ensures v % 0xFFFF == r
  {
    DivModUnique(v, 0xFFFF, q, r);
  }

  lemma FoldStep(sum: nat)
    requires sum >= 0x1_0000
    ensures Fold(sum % 0x1_0000 + sum / 0x1_0000) == Fold(sum)
    ensures sum % 0x1_0000 + sum / 0x1_0000 < sum
  {
    var high, low := sum / 0x1_0000, sum % 0x1_0000;
    assert sum == 0x1_0000 * high + low;
    var small := low + high - 1;
    var q, r := small / 0xFFFF, small % 0xFFFF;
    assert small == 0xFFFF * q + r;
    assert sum - 1 == 0xFFFF * (high + q) + r;
    ModUnique(sum - 1, high + q, r);
  }

  /** Adding the finished checksum, or all ones in place of zero, gives a sum that checks. */
  lemma SumChecks(sum: nat)
    requires sum > 0
    ensures Finish(sum + Finish(sum)) == 0
    ensures Finish(sum) == 0 ==> Finish(sum + 0xFFFF) == 0
  {
    var q, r := (sum - 1) / 0xFFFF, (sum - 1) % 0xFFFF;
    assert sum - 1 == 0xFFFF * q + r;
    assert Finish(sum) == 0xFFFF - (r + 1);
    assert sum + Finish(sum) - 1 == 0xFFFF * q + (0xFFFF - 1);
    ModUnique(sum + Finish(sum) - 1, q, 0xFFFF - 1);
    if Finish(sum) == 0 {
      assert sum + 0xFFFF - 1 == 0xFFFF * (q + 1) + (0xFFFF - 1);
      ModUnique(sum + 0xFFFF - 1, q + 1, 0xFFFF - 1);
    }
  }

  /** A packet passes exactly when its sum is a positive multiple of 65535. */
  lemma PassesIff(sum: nat)
    ensures Finish(sum) == 0 <==> sum > 0 && sum % 0xFFFF == 0
  {
    if sum > 0 {
      var q, r := (sum - 1) / 0xFFFF, (sum - 1) % 0xFFFF;
      assert sum - 1 == 0xFFFF * q + r;
      if r == 0xFFFF - 1 {
        ModUnique(sum, q + 1, 0);
      } else {
        ModUnique(sum, q, r + 1);
      }
    }
  }

  /** The word at an even position; an odd last byte is padded with zero. */
  function WordAt(bytes: seq<byte>, k: nat): (w: u16)
    requires k < |bytes|
  {
    var high: int := bytes[k];
    256 * high + if k + 1 < |bytes| then bytes[k + 1] else 0
  }

  /** Changing one word changes the sum by the difference. */
  lemma {:induction false} WordChange(a: seq<byte>, b: seq<byte>, k: nat)
    requires |a| == |b| && k % 2 == 0 && k < |a|
    requires forall i :: 0 <= i < |a| && i != k && i != k + 1 ==> a[i] == b[i]
    ensures WordSum(a) - WordAt(a, k) == WordSum(b) - WordAt(b, k)
  {
    if |a| > 1 {
      if k == 0 {
        assert a[2..] == b[2..];
      } else {
        WordChange(a[2..], b[2..], k - 2);
      }
    }
  }

  /** The one change of a word the checksum does not notice is between its two zeros. */
  lemma ChangePasses(sum: nat, other: nat, v: u16, w: u16)
    requires Finish(sum) == 0 && other > 0 && sum - v == other - w
    ensures Finish(other) == 0 <==> v == w || (v == 0 && w == 0xFFFF) || (v == 0xFFFF && w == 0)
  {
    hide Finish;
    PassesIff(sum);
    PassesIff(other);
    var q := sum / 0xFFFF;
    assert sum == 0xFFFF * q;
    if w == v + 0xFFFF {
      ModUnique(other, q + 1, 0);
    } else if w >= v {
      ModUnique(other, q, w - v);
    } else if v == w + 0xFFFF {
      ModUnique(other, q - 1, 0);
    } else {
      ModUnique(other, q - 1, 0xFFFF - (v - w));
    }
  }

  /** The loop over pairs of bytes in a wrapping 32-bit accumulator. */
  method ChecksumSum(bytes: seq<byte>) returns (sum: u32)
    ensures |bytes| <= 0xFFFF ==> sum == WordSum(bytes)
    ensures sum == WordSum(bytes) % U32_LIMIT
  {
    sum := 0;
    var i := 0;
    ghost var exact := 0;
    while i + 1 < |bytes|
      invariant 0 <= i <= |bytes| && exact + WordSum(bytes[i..]) == WordSum(bytes)
      invariant 0 <= exact && sum == exact % U32_LIMIT
    {
      var high: int := bytes[i];
      var word: nat := 256 * high + bytes[i + 1];
      assert bytes[i..][2..] == bytes[i + 2..];
      WrapAdd(exact, word);
      exact := exact + word;
      sum := (sum + word) % U32_LIMIT;
      i := i + 2;
    }
    if i < |bytes| {
      assert bytes[i..] == [bytes[i]];
      var last: int := bytes[i];
      WrapAdd(exact, 256 * last);
      exact := exact + 256 * last;
      sum := (sum + 256 * last) % U32_LIMIT;
    } else {
      assert bytes[i..] == [];
    }
    assert exact == WordSum(bytes);
    if |bytes| <= 0xFFFF {
      WordSumBound(bytes);
      NoWrap(exact);
    }
  }

  lemma WrapAdd(x: nat, y: nat)
    ensures (x % U32_LIMIT + y) % U32_LIMIT == (x + y) % U32_LIMIT
  {
    var q, r := x / U32_LIMIT, x % U32_LIMIT;
    assert x == U32_LIMIT * q + r;
    var q2, r2 := (r + y) / U32_LIMIT, (r + y) % U32_LIMIT;
    assert r + y == U32_LIMIT * q2 + r2;
    assert x + y == U32_LIMIT * (q + q2) + r2;
    DivModUnique(x + y, U32_LIMIT, q + q2, r2);
  }

  lemma NoWrap(x: nat)
    requires x <= 0x8000 * 0xFFFF
    ensures x % U32_LIMIT == x
  {
    DivModUnique(x, U32_LIMIT, 0, x);
  }

  method FinishChecksum(start: u32) returns (r: u16)
    ensures r == Finish(start)
  {
    var sum: nat := start;
    while sum >= 0x1_0000
      invariant Fold(sum) == Fold(start)
      decreases sum
    {
      FoldStep(sum);
      sum := sum % 0x1_0000 + sum / 0x1_0000;
    }
    assert Fold(sum) == sum by {
      if sum > 0 {
        if sum == 0xFFFF {
          ModUnique(sum - 1, 0, 0xFFFF - 1);
        } else {
          ModUnique(sum - 1, 0, sum - 1);
        }
      }
    }
    r := 0xFFFF - sum;
  }
}
