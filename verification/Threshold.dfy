/** 256-bit thresholds: byte strings as numbers, targets, leading zero bits, byte-wise comparison. */
module Threshold {
  import opened Bytes

  /** The number a byte string denotes, most significant byte first. */
  function BigEndian(s: bytes): (v: nat) {
    if s == [] then 0 else s[0] * Pow2(8 * (|s| - 1)) + BigEndian(s[1..])
  }

  /** The number a byte string denotes, least significant byte first. */
  function LittleEndian(s: bytes): (v: nat) {
    if s == [] then 0 else s[0] + 256 * LittleEndian(s[1..])
  }

  function LittleEndianBytes(n: nat, len: nat): (s: bytes)
    ensures |s| == len
  {
    if len == 0 then [] else [n % 256] + LittleEndianBytes(n / 256, len - 1)
  }

  lemma {:induction false} BigEndianBound(s: bytes)
    ensures BigEndian(s) < Pow2(8 * |s|)
  {
    if s != [] {
      BigEndianBound(s[1..]);
      var p := Pow2(8 * (|s| - 1));
      Pow2Eight(8 * (|s| - 1));
      HeadBelow(s[0], 256, BigEndian(s[1..]), p);
    }
  }

  lemma {:induction false} LittleEndianBound(s: bytes)
    ensures LittleEndian(s) < Pow2(8 * |s|)
  {
    if s != [] {
      LittleEndianBound(s[1..]);
      Pow2Eight(8 * (|s| - 1));
    }
  }

  /** Little-endian bytes and numbers below 256^len correspond one to one. */
  lemma {:induction false} LittleEndianRoundTrip(n: nat, len: nat)
    requires n < Pow2(8 * len)
    ensures LittleEndian(LittleEndianBytes(n, len)) == n
  {
    if len > 0 {
      Pow2Eight(8 * (len - 1));
      LittleEndianRoundTrip(n / 256, len - 1);
    }
  }

  lemma {:induction false} BytesOfLittleEndian(s: bytes)
    ensures LittleEndianBytes(LittleEndian(s), |s|) == s
  {
    if s != [] {
      BytesOfLittleEndian(s[1..]);
      DivModOf(LittleEndian(s[1..]), s[0], 256);
      assert s == [s[0]] + s[1..];
    }
  }

  /** Scaling a head byte cannot be undone by a shorter tail. */
  lemma HeadDominates(a: byte, b: byte, ra: nat, rb: nat, p: nat)
    requires ra < p && rb < p
    ensures a < b ==> a * p + ra < b * p + rb
    ensures a == b ==> (a * p + ra < b * p + rb <==> ra < rb)
    ensures a > b ==> a * p + ra > b * p + rb
  {
    if a < b {
      assert (a + 1) * p <= b * p;
    } else if a > b {
      assert (b + 1) * p <= a * p;
    }
  }

  /** lessThan's order: the first differing byte decides. */
  function LexLess(a: bytes, b: bytes): bool {
    if a == [] || b == [] then false
    else if a[0] != b[0] then a[0] < b[0]
    else LexLess(a[1..], b[1..])
  }

  lemma {:induction false} LexLessIsNumeric(a: bytes, b: bytes)
    requires |a| == |b|
    ensures LexLess(a, b) <==> BigEndian(a) < BigEndian(b)
  {
    if a != [] {
      LexLessIsNumeric(a[1..], b[1..]);
      BigEndianBound(a[1..]);
      BigEndianBound(b[1..]);
      HeadDominates(a[0], b[0], BigEndian(a[1..]), BigEndian(b[1..]), Pow2(8 * (|a| - 1)));
    }
  }

  lemma {:induction false} BigEndianInjective(a: bytes, b: bytes)
    requires |a| == |b| && BigEndian(a) == BigEndian(b)
    ensures a == b
  {
    if a != [] {
      BigEndianBound(a[1..]);
      BigEndianBound(b[1..]);
      HeadDominates(a[0], b[0], BigEndian(a[1..]), BigEndian(b[1..]), Pow2(8 * (|a| - 1)));
      BigEndianInjective(a[1..], b[1..]);
      assert a == [a[0]] + a[1..] && b == [b[0]] + b[1..];
    }
  }

  /** bits.LeadingZeros8 */
  function LeadingZeros8(b: byte): (n: nat)
    ensures n <= 8 && (n == 8 <==> b == 0)
  {
    if b >= 128 then 0 else if b >= 64 then 1 else if b >= 32 then 2 else if b >= 16 then 3
    else if b >= 8 then 4 else if b >= 4 then 5 else if b >= 2 then 6 else if b >= 1 then 7 else 8
  }

  lemma LeadingZeros8Means(b: byte, d: nat)
    requires d <= 8
    ensures LeadingZeros8(b) >= d <==> b < Pow2(8 - d)
  {
    assert Pow2(1) == 2 && Pow2(2) == 4 && Pow2(3) == 8 && Pow2(4) == 16;
    assert Pow2(5) == 32 && Pow2(6) == 64 && Pow2(7) == 128 && Pow2(8) == 256;
  }

  /** The number of leading zero bits of a whole byte string. */
  function LeadingZeros(s: bytes): (n: nat)
    ensures n <= 8 * |s|
  {
    if s == [] then 0
    else if s[0] == 0 then 8 + LeadingZeros(s[1..])
    else LeadingZeros8(s[0])
  }

  /** A head byte with a tail below p stays below q * p exactly when the head is below q. */
  lemma HeadBelow(a: nat, q: nat, r: nat, p: nat)
    requires r < p
    ensures a * p + r < q * p <==> a < q
  {
    if a < q {
      assert (a + 1) * p <= q * p;
    } else {
      assert a * p >= q * p;
    }
  }

  /** At least d leading zero bits means: below 2^(bits - d). */
  lemma {:induction false} LeadingZerosMeans(s: bytes, d: nat)
    requires d <= 8 * |s|
    ensures LeadingZeros(s) >= d <==> BigEndian(s) < Pow2(8 * |s| - d)
  {
    if s != [] {
      var k, tail := 8 * (|s| - 1), s[1..];
      var p := Pow2(k);
      BigEndianBound(tail);
      assert BigEndian(s) == s[0] * p + BigEndian(tail);
      if d <= 8 {
        LeadingZeros8Means(s[0], d);
        Pow2Add(8 - d, k);
        HeadBelow(s[0], Pow2(8 - d), BigEndian(tail), p);
      } else if s[0] == 0 {
        LeadingZerosMeans(tail, d - 8);
      } else {
        Pow2Monotone(8 * |s| - d, k);
        HeadBelow(s[0], 1, BigEndian(tail), p);
      }
    }
  }

  /** The value of the target the server builds: all ones below the first d bits. */
  function TargetValue(n: nat, d: nat): nat {
    if d < 8 * n then Pow2(8 * n - d) - 1 else 0
  }

  lemma PredecessorTimes(q: nat, p: nat)
    ensures (q - 1) * p + (p - 1) == q * p - 1
  {
  }

  /** One byte of the target, d difficulty bits before its end. */
  function TargetByte(d: int): (b: byte) {
    if d >= 8 then 0 else if d <= 0 then 255
    else
      Pow2Monotone(8 - d, 8);
      Pow2Eight(0);
      Pow2(8 - d) - 1
  }

  lemma {:induction false} TargetBytesValue(s: bytes, d: int)
    requires forall i :: 0 <= i < |s| ==> s[i] == TargetByte(d - 8 * i)
    ensures BigEndian(s) == TargetValue(|s|, if d < 0 then 0 else d)
  {
    if s != [] {
      forall i | 0 <= i < |s[1..]| ensures s[1..][i] == TargetByte(d - 8 - 8 * i) {
        assert s[1..][i] == s[i + 1];
      }
      TargetBytesValue(s[1..], d - 8);
      var k := 8 * (|s| - 1);
      var p := Pow2(k);
      assert BigEndian(s) == TargetByte(d) * p + BigEndian(s[1..]);
      if d < 8 {
        var q := if d < 0 then Pow2(8) else Pow2(8 - d);
        assert Pow2(8) == 256 by { Pow2Eight(0); }
        assert TargetByte(d) == q - 1;
        assert BigEndian(s[1..]) == p - 1;
        Pow2Add(if d < 0 then 8 else 8 - d, k);
        PredecessorTimes(q, p);
      }
    }
  }

  /** The target loop of MakeChallenge: shift a one in for every bit past the difficulty. */
  method BuildTarget(n: nat, difficulty: nat) returns (target: array<byte>)
    ensures fresh(target) && target.Length == n
    ensures BigEndian(target[..]) == TargetValue(n, difficulty)
  {
    target := new byte[n];
    var nBits := difficulty;
    for i := 0 to target.Length
      invariant nBits == if difficulty >= 8 * i then difficulty - 8 * i else 0
      invariant forall k :: 0 <= k < i ==> target[k] == TargetByte(difficulty - 8 * k)
    {
      ghost var before := nBits;
      var v: byte := 0;
      for j := 0 to 8
        invariant nBits == if before >= j then before - j else 0
        invariant v == if before >= j then 0 else Pow2(j - before) - 1
      {
        assert before < j ==> Pow2(j - before) <= 128 by {
          if before < j { Pow2Monotone(j - before, 7); assert Pow2(7) == 128; }
        }
        v := v * 2 % 256;
        if nBits == 0 {
          v := v + 1;
        } else {
          nBits := nBits - 1;
        }
      }
      assert Pow2(8) == 256 by { Pow2Eight(0); }
      target[i] := v;
    }
    TargetBytesValue(target[..], difficulty);
  }

  /** The leading-zero loop of VerifyChallenge, stopping at the first non-zero byte. */
  method CountLeadingZeros(hash: bytes) returns (count: nat)
    ensures count == LeadingZeros(hash)
  {
    count := 0;
    var i := 0;
    while i < |hash|
      invariant i <= |hash|
      invariant count + LeadingZeros(hash[i..]) == LeadingZeros(hash)
    {
      var leadingZeroes := LeadingZeros8(hash[i]);
      count := count + leadingZeroes;
      if leadingZeroes < 8 {
        break;
      }
      i := i + 1;
    }
  }
}
