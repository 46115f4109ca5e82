/** The hexadecimal codec of utils/inline/hex.go (base 16, section 8 of RFC 4648). */
module Hex {
  import opened Bytes

  /** What Decode reports: nothing, an odd length, or the offending byte. */
  datatype DecodeError = NoError | OddLength | InvalidByte(b: byte)

  /** hextable */
  function Digit(n: int): (c: byte)
    requires 0 <= n < 16
    ensures ReverseTable(c) == n
  {
    if n < 10 then '0' as int + n else 'a' as int + n - 10
  }

  /** reverseHexTable: the digit's value, or 0xff for every other byte. */
  function ReverseTable(c: byte): (v: byte)
    ensures v <= 0x0f || v == 0xff
  {
    if '0' as int <= c <= '9' as int then c - '0' as int
    else if 'a' as int <= c <= 'f' as int then c - 'a' as int + 10
    else if 'A' as int <= c <= 'F' as int then c - 'A' as int + 10
    else 0xff
  }

  predicate IsHexDigit(c: byte) {
    ReverseTable(c) != 0xff
  }

  /** The alphabet of the code, in order. */
  const HEX_TABLE := "0123456789abcdef"

  /** A byte has the value n exactly when it is the n-th of the alphabet, in either letter case, and it
      has no value exactly when it is none of them. */
  lemma DigitIff(c: byte, n: int)
    requires 0 <= n < 16
    ensures Digit(n) == HEX_TABLE[n] as int
    ensures ReverseTable(c) == n <==> ToLower(c) == HEX_TABLE[n] as int
    ensures !IsHexDigit(c) <==> forall k :: 0 <= k < 16 ==> ToLower(c) != HEX_TABLE[k] as int
  {
    assert forall k :: 0 <= k < 16 ==> Digit(k) == HEX_TABLE[k] as int;
    if IsHexDigit(c) {
      assert ToLower(c) == Digit(ReverseTable(c)) == HEX_TABLE[ReverseTable(c)] as int;
    }
  }

  predicate AllHex(s: bytes) {
    forall i :: 0 <= i < |s| ==> IsHexDigit(s[i])
  }

  function ToLower(c: byte): byte {
    if 'A' as int <= c <= 'Z' as int then c + 32 else c
  }

  function Lowered(s: bytes): bytes {
    seq(|s|, i requires 0 <= i < |s| => ToLower(s[i]))
  }

  /** The encoding, digit by digit: the high nibble of byte i at 2i, the low one at 2i+1. */
  function Encoded(src: bytes): (r: bytes)
    ensures |r| == 2 * |src|
    ensures AllHex(r)
  {
    seq(2 * |src|, i requires 0 <= i < 2 * |src| =>
      if i % 2 == 0 then Digit(src[i / 2] / 16) else Digit(src[i / 2] % 16))
  }

  /** The decoding of the first n pairs. */
  function Decoded(src: bytes, n: nat): (r: bytes)
    requires 2 * n <= |src| && AllHex(src[..2 * n])
    ensures |r| == n
  {
    seq(n, i requires 0 <= i < n =>
      assert IsHexDigit(src[..2 * n][2 * i]) && IsHexDigit(src[..2 * n][2 * i + 1]);
      ReverseTable(src[2 * i]) * 16 + ReverseTable(src[2 * i + 1]))
  }

  /** The length of the longest prefix of hex digits, that is, the position of the first fault. */
  function HexPrefix(s: bytes): (n: nat)
    ensures n <= |s| && AllHex(s[..n])
    ensures n < |s| ==> !IsHexDigit(s[n])
  {
    if s == [] || !IsHexDigit(s[0]) then 0
    else
      var n := 1 + HexPrefix(s[1..]);
      assert AllHex(s[..n]) by {
        forall i | 0 <= i < n ensures IsHexDigit(s[..n][i]) {
          if i > 0 { assert s[..n][i] == s[1..][..n - 1][i - 1]; }
        }
      }
      n
  }

  lemma {:induction false} HexPrefixIs(s: bytes, n: nat)
    requires n <= |s| && AllHex(s[..n]) && (n < |s| ==> !IsHexDigit(s[n]))
    ensures HexPrefix(s) == n
  {
    if 0 < n {
      assert s[0] == s[..n][0];
      assert s[1..][..n - 1] == s[..n][1..];
      HexPrefixIs(s[1..], n - 1);
    }
  }

  /** A fault anywhere is reported before a bad length. */
  function DecodeOutcome(s: bytes): DecodeError {
    if HexPrefix(s) < |s| then InvalidByte(s[HexPrefix(s)])
    else if |s| % 2 == 1 then OddLength
    else NoError
  }

  /** Decode after Encode restores every byte sequence. */
  lemma DecodeEncode(src: bytes)
    ensures DecodeOutcome(Encoded(src)) == NoError
    ensures Decoded(Encoded(src), |src|) == src
  {
    var e := Encoded(src);
    assert e[..|e|] == e;
    HexPrefixIs(e, |e|);
    forall i | 0 <= i < |src| ensures Decoded(e, |src|)[i] == src[i] {
      assert e[2 * i] == Digit(src[i] / 16) && e[2 * i + 1] == Digit(src[i] % 16);
    }
  }

  /** Decode succeeds exactly on even-length strings of hex digits. */
  lemma DecodeSucceedsIff(s: bytes)
    ensures DecodeOutcome(s) == NoError <==> |s| % 2 == 0 && AllHex(s)
  {
    assert s[..|s|] == s;
    if AllHex(s) {
      HexPrefixIs(s, |s|);
    }
  }

  /** An odd length is reported only when there is no fault, and a byte is reported exactly when it is the
      first fault. */
  lemma OutcomeIs(s: bytes)
    ensures DecodeOutcome(s) == OddLength <==> |s| % 2 == 1 && AllHex(s)
    ensures forall i :: 0 <= i < |s| && AllHex(s[..i]) && !IsHexDigit(s[i]) ==>
              DecodeOutcome(s) == InvalidByte(s[i]) && HexPrefix(s) == i
  {
    assert s[..|s|] == s;
    if AllHex(s) {
      HexPrefixIs(s, |s|);
    }
    forall i | 0 <= i < |s| && AllHex(s[..i]) && !IsHexDigit(s[i])
      ensures DecodeOutcome(s) == InvalidByte(s[i]) && HexPrefix(s) == i
    {
      HexPrefixIs(s, i);
    }
  }

  /** Re-encoding what was decoded gives the lower-cased digits. */
  lemma EncodeDecode(s: bytes)
    requires |s| % 2 == 0 && AllHex(s)
    ensures s[..2 * (|s| / 2)] == s && Encoded(Decoded(s, |s| / 2)) == Lowered(s)
  {
    assert s[..2 * (|s| / 2)] == s;
    var d := Decoded(s, |s| / 2);
    forall i | 0 <= i < |s| ensures Encoded(d)[i] == Lowered(s)[i] {
      var k := i / 2;
      assert IsHexDigit(s[2 * k]) && IsHexDigit(s[2 * k + 1]);
      assert d[k] / 16 == ReverseTable(s[2 * k]) && d[k] % 16 == ReverseTable(s[2 * k + 1]);
      assert i == 2 * k || i == 2 * k + 1;
    }
  }

  /** Two accepted strings decode alike exactly when they agree up to letter case. */
  lemma DecodedEqualIff(s: bytes, t: bytes)
    requires |s| % 2 == 0 && AllHex(s) && |t| % 2 == 0 && AllHex(t)
    ensures s[..2 * (|s| / 2)] == s && t[..2 * (|t| / 2)] == t
    ensures Decoded(s, |s| / 2) == Decoded(t, |t| / 2) <==> Lowered(s) == Lowered(t)
  {
    EncodeDecode(s);
    EncodeDecode(t);
    if Lowered(s) == Lowered(t) {
      DecodeEncode(Decoded(s, |s| / 2));
      DecodeEncode(Decoded(t, |t| / 2));
      assert |s| == |Lowered(s)| == |Lowered(t)| == |t|;
    }
  }

  lemma LoweredIsHex(s: bytes, e: bytes)
    requires Lowered(s) == e && AllHex(e)
    ensures AllHex(s) && Lowered(e) == e
  {
    assert |s| == |e|;
    forall i | 0 <= i < |s| ensures IsHexDigit(s[i]) && Lowered(e)[i] == e[i] {
      assert e[i] == ToLower(s[i]);
      assert IsHexDigit(e[i]);
    }
  }

  /** Whatever lower-cases to the encoding of r decodes to r. */
  lemma SpellingDecodes(s: bytes, r: bytes)
    requires Lowered(s) == Encoded(r)
    ensures |s| == 2 * |r| && AllHex(s) && s[..2 * |r|] == s
    ensures Decoded(s, |r|) == r && DecodeOutcome(s) == NoError
  {
    var e := Encoded(r);
    LoweredIsHex(s, e);
    assert |s| == |Lowered(s)| == 2 * |r|;
    DecodeSucceedsIff(s);
    EncodeDecode(s);
    assert |s| / 2 == |r|;
    EncodedInjective(Decoded(s, |r|), r);
  }

  lemma EncodedInjective(x: bytes, y: bytes)
    requires Encoded(x) == Encoded(y)
    ensures x == y
  {
    DecodeEncode(x);
    DecodeEncode(y);
    assert 2 * |x| == |Encoded(x)| == |Encoded(y)| == 2 * |y|;
  }

  function EncodedLen(n: nat): nat { n * 2 }

  function DecodedLen(x: nat): nat { x / 2 }

  /** One more byte. */
  lemma EncodedStep(s: bytes, i: nat)
    requires i < |s|
    ensures Encoded(s)[..2 * i + 2] == Encoded(s)[..2 * i] + [Digit(s[i] / 16), Digit(s[i] % 16)]
  {
    var e := Encoded(s);
    assert e[2 * i] == Digit(s[i] / 16) && e[2 * i + 1] == Digit(s[i] % 16);
    assert e[..2 * i + 2] == e[..2 * i] + [e[2 * i], e[2 * i + 1]];
  }

  method Encode(dst: array<byte>, src: array<byte>) returns (n: nat)
    requires dst.Length >= EncodedLen(src.Length)
    modifies dst
    ensures n == EncodedLen(src.Length)
    ensures dst[..n] == Encoded(old(src[..]))
    ensures dst[n..] == old(dst[..])[n..]
  {
    var j := 0;
    for i := 0 to src.Length
      invariant j == 2 * i
      invariant src[..] == old(src[..])
      invariant dst[..j] == Encoded(src[..])[..j]
      invariant dst[j..] == old(dst[..])[j..]
    {
      assert dst != src;
      var v := src[i];
      EncodedStep(src[..], i);
      ghost var written, rest := dst[..j], dst[j..];
      dst[j] := Digit(v / 16);
      dst[j + 1] := Digit(v % 16);
      assert dst[..j + 2] == written + [Digit(v / 16), Digit(v % 16)];
      assert dst[j + 2..] == rest[2..] == old(dst[..])[j + 2..];
      j := j + 2;
    }
    n := src.Length * 2;
    assert Encoded(src[..])[..n] == Encoded(src[..]);
  }

  /** One more pair of digits. */
  lemma DecodedStep(s: bytes, i: nat)
    requires 2 * i + 2 <= |s| && AllHex(s[..2 * i]) && IsHexDigit(s[2 * i]) && IsHexDigit(s[2 * i + 1])
    ensures AllHex(s[..2 * i + 2])
    ensures Decoded(s, i + 1) == Decoded(s, i) + [ReverseTable(s[2 * i]) * 16 + ReverseTable(s[2 * i + 1])]
  {
    OneMoreDigit(s, 2 * i);
    OneMoreDigit(s, 2 * i + 1);
  }

  /** Where the scan stops, and what is reported there: in front of a pair that is not two digits, or
      with fewer than two bytes left. */
  lemma ScanEnds(s: bytes, i: nat)
    requires 2 * i <= |s| && AllHex(s[..2 * i])
    requires 2 * i + 1 < |s| ==> !IsHexDigit(s[2 * i]) || !IsHexDigit(s[2 * i + 1])
    ensures HexPrefix(s) / 2 == i
    ensures DecodeOutcome(s) ==
            if 2 * i < |s| && !IsHexDigit(s[2 * i]) then InvalidByte(s[2 * i])
            else if 2 * i + 1 < |s| then InvalidByte(s[2 * i + 1])
            else if 2 * i < |s| then OddLength
            else NoError
  {
    FirstFault(s, 2 * i);
    Halves(HexPrefix(s), i);
    if |s| <= 2 * i + 1 {
      Halves(|s|, i);
    }
  }

  lemma Halves(n: nat, i: nat)
    requires n == 2 * i || n == 2 * i + 1
    ensures n / 2 == i && n % 2 == n - 2 * i
  {
  }

  lemma FirstFault(s: bytes, n: nat)
    requires n <= |s| && AllHex(s[..n])
    requires n + 1 < |s| ==> !IsHexDigit(s[n]) || !IsHexDigit(s[n + 1])
    ensures HexPrefix(s) == if n < |s| && IsHexDigit(s[n]) then n + 1 else n
  {
    if n < |s| && IsHexDigit(s[n]) {
      OneMoreDigit(s, n);
      HexPrefixIs(s, n + 1);
    } else {
      HexPrefixIs(s, n);
    }
  }

  lemma OneMoreDigit(s: bytes, n: nat)
    requires n < |s| && AllHex(s[..n]) && IsHexDigit(s[n])
    ensures AllHex(s[..n + 1])
  {
    var t := s[..n + 1];
    forall i | 0 <= i < |t| ensures IsHexDigit(t[i]) {
      assert i < n ==> t[i] == s[..n][i];
    }
  }

  /** Decoding may be done in place: dst and src may be the same array. */
  method Decode(dst: array<byte>, src: array<byte>) returns (n: nat, err: DecodeError)
    requires dst.Length >= DecodedLen(src.Length)
    modifies dst
    ensures n == HexPrefix(old(src[..])) / 2
    ensures err == DecodeOutcome(old(src[..]))
    ensures dst[..n] == Decoded(old(src[..]), n)
    ensures dst[n..] == old(dst[..])[n..]
  {
    ghost var s := src[..];
    ghost var d := dst[..];
    var i, j := 0, 1;
    while j < src.Length
      invariant 0 <= i && j == 2 * i + 1 && 2 * i <= src.Length
      invariant AllHex(s[..2 * i])
      invariant dst[..i] == Decoded(s, i)
      invariant dst[i..] == d[i..]
      invariant forall k :: 2 * i <= k < src.Length ==> src[k] == s[k]
      decreases src.Length - j
    {
      var p := src[j - 1];
      var q := src[j];
      var a := ReverseTable(p);
      var b := ReverseTable(q);
      if a > 0x0f {
        ScanEnds(s, i);
        return i, InvalidByte(p);
      }
      if b > 0x0f {
        ScanEnds(s, i);
        return i, InvalidByte(q);
      }
      DecodedStep(s, i);
      assert src[j - 1] == s[2 * i] && src[j] == s[2 * i + 1];
      ghost var written, rest := dst[..i], dst[i..];
      dst[i] := a * 16 + b;
      assert dst[..i + 1] == written + [dst[i]];
      assert dst[i + 1..] == rest[1..] == d[i + 1..];
      i := i + 1;
      j := j + 2;
    }
    ScanEnds(s, i);
    if src.Length % 2 == 1 {
      if ReverseTable(src[j - 1]) > 0x0f {
        return i, InvalidByte(src[j - 1]);
      }
      return i, OddLength;
    }
    return i, NoError;
  }
}
