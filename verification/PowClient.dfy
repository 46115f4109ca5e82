/** The browser half of the proof of work: embed/challenge/js-pow-sha256/static/load.mjs. */
module PowClient {
  import opened Bytes
  import opened Threshold
  import Hex

  /** A UTF-16 code unit of a JavaScript string. */
  type codeunit = c: int | 0 <= c < 65536

  type jsstring = seq<codeunit>

  // ---- decodeHex --------------------------------------------------------

  predicate IsJsSpace(c: codeunit) {
    9 <= c <= 13 || c in {0x20, 0xA0, 0x1680, 0x2028, 0x2029, 0x202F, 0x205F, 0x3000, 0xFEFF} || 0x2000 <= c <= 0x200A
  }

  function TrimStart(s: jsstring): jsstring {
    if s != [] && IsJsSpace(s[0]) then TrimStart(s[1..]) else s
  }

  function DigitAt(s: jsstring, i: nat): int {
    if i < |s| && s[i] < 256 && Hex.IsHexDigit(s[i]) then Hex.ReverseTable(s[i]) else -1
  }

  /** The longest prefix of hex digits as a number, with acc read before it. */
  function PrefixValue(s: jsstring, acc: nat): nat {
    if DigitAt(s, 0) < 0 then acc else PrefixValue(s[1..], 16 * acc + DigitAt(s, 0))
  }

  /** parseInt(s, 16); None is NaN. */
  function ParseInt16(s: jsstring): Option<int> {
    var t := TrimStart(s);
    var negative := t != [] && t[0] == '-' as int;
    var u := if t != [] && (t[0] == '-' as int || t[0] == '+' as int) then t[1..] else t;
    var v := if |u| >= 2 && u[0] == '0' as int && (u[1] == 'x' as int || u[1] == 'X' as int) then u[2..] else u;
    if DigitAt(v, 0) < 0 then None
    else
      var value: int := PrefixValue(v, 0);
      Some(if negative then -value else value)
  }

  /** Storing a number into a Uint8Array: NaN becomes 0, the rest wraps. */
  function ToUint8(n: Option<int>): byte {
    if n.None? then 0 else n.value % 256
  }

  function Pair(s: jsstring, k: nat): jsstring
    requires 2 * k < |s|
  {
    s[2 * k..Min(2 * k + 2, |s|)]
  }

  function DecodedHex(s: jsstring): bytes {
    seq(|s| / 2, k requires 0 <= k < |s| / 2 => ToUint8(ParseInt16(Pair(s, k))))
  }

  method DecodeHex(str: jsstring) returns (result: array<byte>)
    ensures fresh(result) && result[..] == DecodedHex(str)
  {
    result := new byte[|str| / 2];
    var i := 0;
    while i < |str|
      invariant i % 2 == 0 && i <= |str| + 1
      invariant forall k :: 0 <= k < Min(i / 2, result.Length) ==> result[k] == ToUint8(ParseInt16(Pair(str, k)))
    {
      var value := ToUint8(ParseInt16(str[i..Min(i + 2, |str|)]));
      // a store past the end of a typed array is ignored
      if i / 2 < result.Length {
        assert Pair(str, i / 2) == str[i..Min(i + 2, |str|)];
        result[i / 2] := value;
      }
      i := i + 2;
    }
  }

  lemma ParseTwoDigits(s: jsstring)
    requires |s| == 2 && DigitAt(s, 0) >= 0 && DigitAt(s, 1) >= 0
    ensures ParseInt16(s) == Some(16 * DigitAt(s, 0) + DigitAt(s, 1))
  {
    var a, b := DigitAt(s, 0), DigitAt(s, 1);
    var t := s[1..];
    assert DigitAt(t, 0) == b && DigitAt(t[1..], 0) == -1;
    assert PrefixValue(t, a) == PrefixValue(t[1..], 16 * a + b) == 16 * a + b;
    assert PrefixValue(s, 0) == PrefixValue(t, a);
  }

  /** What any two code units are stored as: leading space and plus sign read as nothing, a minus sign
      negates and wraps, reading stops at what is no digit, and no digit at all is zero. */
  lemma PairReads(a: codeunit, b: codeunit)
    ensures var x, y := DigitAt([a, b], 0), DigitAt([a, b], 1);
            ToUint8(ParseInt16([a, b])) ==
            if x >= 0 then (if y >= 0 then 16 * x + y else x)
            else if y < 0 then 0
            else if IsJsSpace(a) || a == '+' as int then y
            else if a == '-' as int then (256 - y) % 256
            else 0
  {
    var s: jsstring := [a, b];
    assert s[1..] == [b] && s[2..] == [];
    assert DigitAt([b], 0) == DigitAt(s, 1);
    OneDigit(b);
    if DigitAt(s, 0) >= 0 {
      if DigitAt(s, 1) >= 0 {
        ParseTwoDigits(s);
      } else {
        assert PrefixValue(s, 0) == PrefixValue([b], DigitAt(s, 0)) == DigitAt(s, 0);
      }
    } else if IsJsSpace(a) {
      assert TrimStart(s) == TrimStart([b]);
      assert TrimStart([b]) == [b] || TrimStart([b]) == [];
    }
  }

  lemma OneDigit(b: codeunit)
    ensures PrefixValue([b], 0) == if DigitAt([b], 0) >= 0 then DigitAt([b], 0) else 0
  {
    assert [b][1..] == [];
  }

  /** On hex digits the browser's decoder agrees with the server's. */
  lemma DecodeAgrees(s: bytes)
    requires |s| % 2 == 0 && Hex.AllHex(s)
    ensures s[..2 * (|s| / 2)] == s
    ensures DecodedHex(s) == Hex.Decoded(s, |s| / 2)
  {
    assert s[..2 * (|s| / 2)] == s;
    forall k | 0 <= k < |s| / 2 ensures DecodedHex(s)[k] == Hex.Decoded(s, |s| / 2)[k] {
      PairAgrees(s, k);
    }
  }

  lemma PairAgrees(s: bytes, k: nat)
    requires |s| % 2 == 0 && Hex.AllHex(s) && k < |s| / 2
    ensures ToUint8(ParseInt16(Pair(s, k))) == Hex.ReverseTable(s[2 * k]) * 16 + Hex.ReverseTable(s[2 * k + 1])
  {
    var p := Pair(s, k);
    assert p[0] == s[2 * k] && p[1] == s[2 * k + 1];
    assert Hex.IsHexDigit(s[2 * k]) && Hex.IsHexDigit(s[2 * k + 1]);
    ParseTwoDigits(p);
  }

  // ---- encodeHex --------------------------------------------------------

  /** b.toString(16).padStart(2, '0') */
  function TwoDigits(b: byte): bytes {
    var digits := if b < 16 then [Hex.Digit(b)] else [Hex.Digit(b / 16), Hex.Digit(b % 16)];
    if |digits| < 2 then ['0' as int] + digits else digits
  }

  /** buf.reduce((a, b) => a + digits of b, a) */
  function EncodeHexFrom(buf: bytes, a: bytes): bytes {
    if buf == [] then a else EncodeHexFrom(buf[1..], a + TwoDigits(buf[0]))
  }

  function EncodeHex(buf: bytes): bytes {
    EncodeHexFrom(buf, [])
  }

  lemma EncodedHead(buf: bytes)
    requires buf != []
    ensures Hex.Encoded(buf) == TwoDigits(buf[0]) + Hex.Encoded(buf[1..])
  {
    var e, f := Hex.Encoded(buf), Hex.Encoded(buf[1..]);
    var g := TwoDigits(buf[0]) + f;
    assert |e| == |g|;
    forall i | 0 <= i < |e| ensures e[i] == g[i] {
      if i < 2 {
        assert TwoDigits(buf[0]) == [Hex.Digit(buf[0] / 16), Hex.Digit(buf[0] % 16)];
      } else {
        var j := i - 2;
        assert i / 2 == j / 2 + 1 && i % 2 == j % 2;
        assert buf[1..][j / 2] == buf[i / 2];
        assert g[i] == f[j];
      }
    }
  }

  lemma {:induction false} EncodeHexFromIs(buf: bytes, a: bytes)
    ensures EncodeHexFrom(buf, a) == a + Hex.Encoded(buf)
  {
    if buf != [] {
      EncodeHexFromIs(buf[1..], a + TwoDigits(buf[0]));
      EncodedHead(buf);
      Associate(a, TwoDigits(buf[0]), Hex.Encoded(buf[1..]));
    }
  }

  /** The browser's encoder writes exactly the server's encoding. */
  lemma EncodeAgrees(buf: bytes)
    ensures EncodeHex(buf) == Hex.Encoded(buf)
  {
    EncodeHexFromIs(buf, []);
    assert [] + Hex.Encoded(buf) == Hex.Encoded(buf);
  }

  method Encode(buf: array<byte>) returns (text: bytes)
    ensures text == Hex.Encoded(buf[..])
  {
    EncodeAgrees(buf[..]);
    text := EncodeHex(buf[..]);
  }

  // ---- lessThan ---------------------------------------------------------

  method LessThan(buf: bytes, target: bytes) returns (less: bool)
    ensures less <==> LexLess(buf, target)
    ensures |buf| == |target| ==> (less <==> BigEndian(buf) < BigEndian(target))
  {
    if |buf| == |target| {
      LexLessIsNumeric(buf, target);
    }
    for i := 0 to |buf|
      invariant LexLess(buf, target) <==> i <= |target| && LexLess(buf[i..], target[i..])
    {
      // an index past the end of target reads undefined, which compares false both ways
      if i < |target| {
        assert buf[i..][1..] == buf[i + 1..] && target[i..][1..] == target[i + 1..];
        if buf[i] < target[i] {
          return true;
        } else if buf[i] > target[i] {
          return false;
        }
      }
    }
    return false;
  }

  // ---- increment --------------------------------------------------------

  /** Carry from the least significant byte. */
  function Incremented(s: bytes): (r: bytes)
    ensures |r| == |s|
  {
    if s == [] then [] else if s[0] == 255 then [0] + Incremented(s[1..]) else [s[0] + 1] + s[1..]
  }

  lemma {:induction false} IncrementedAddsOne(s: bytes)
    ensures LittleEndian(Incremented(s)) == (if LittleEndian(s) + 1 == Pow2(8 * |s|) then 0 else LittleEndian(s) + 1)
  {
    if s != [] {
      LittleEndianBound(s[1..]);
      Pow2Eight(8 * (|s| - 1));
      IncrementedAddsOne(s[1..]);
      var r := Incremented(s);
      assert r[1..] == if s[0] == 255 then Incremented(s[1..]) else s[1..];
    }
  }

  /** One turn of the carry, behind the bytes already done. */
  lemma CarryStep(done: bytes, rest: bytes)
    requires rest != []
    ensures done + Incremented(rest) ==
            if rest[0] == 255 then done + [0] + Incremented(rest[1..]) else done + ([rest[0] + 1] + rest[1..])
  {
    Associate(done, [0], Incremented(rest[1..]));
  }

  method Increment(number: array<byte>)
    modifies number
    ensures number[..] == Incremented(old(number[..]))
  {
    ghost var rest := number[..];
    var i := 0;
    while i < number.Length
      invariant i <= number.Length
      invariant number[i..] == rest
      invariant Incremented(old(number[..])) == number[..i] + Incremented(rest)
      decreases number.Length - i
    {
      ghost var done := number[..i];
      CarryStep(done, rest);
      assert number[i] == rest[0] && number[i + 1..] == rest[1..];
      if number[i] == 255 {
        number[i] := 0;
        assert number[..i + 1] == done + [0] && number[i + 1..] == rest[1..];
      } else {
        number[i] := number[i] + 1;
        assert number[..i] == done && number[i..] == [rest[0] + 1] + rest[1..];
        assert number[..] == number[..i] + number[i..];
        return;
      }
      i := i + 1;
      rest := rest[1..];
    }
    assert number[..] == number[..i] + [];
  }

  // ---- the search -------------------------------------------------------

  /** The worker's test on its n-th buffer. */
  predicate Accepts(h: Hash, data: bytes, target: bytes, n: nat) {
    LexLess(h(data + LittleEndianBytes(n, 8)), target)
  }

  /** The nonce array after k calls of increment, starting from eight zero bytes. */
  function NonceAfter(k: nat): (s: bytes)
    ensures |s| == 8
  {
    if k == 0 then seq(8, i => 0) else Incremented(NonceAfter(k - 1))
  }

  /** The loop's exit test on its k-th turn. */
  predicate StopsAt(h: Hash, data: bytes, target: bytes, k: nat) {
    LexLess(h(data + NonceAfter(k)), target)
  }

  /** The first 2^64 nonces count up in little-endian order. */
  lemma {:induction false} NonceAfterCounts(k: nat)
    requires k < Pow2(64)
    ensures NonceAfter(k) == LittleEndianBytes(k, 8)
  {
    if k == 0 {
      ZeroNonce(8);
    } else {
      NonceAfterCounts(k - 1);
      IncrementedIsNext(NonceAfter(k - 1), k - 1, 8);
    }
  }

  lemma IncrementedIsNext(s: bytes, k: nat, len: nat)
    requires s == LittleEndianBytes(k, len) && k + 1 < Pow2(8 * len)
    ensures Incremented(s) == LittleEndianBytes(k + 1, len)
  {
    LittleEndianRoundTrip(k, len);
    IncrementedAddsOne(s);
    BytesOfLittleEndian(Incremented(s));
  }

  lemma {:induction false} ZeroNonce(len: nat)
    ensures LittleEndianBytes(0, len) == seq(len, i => 0)
  {
    if len > 0 {
      ZeroNonce(len - 1);
    }
  }

  /** No nonce comes back before all 2^64 have been tried, and every one of them is tried. */
  lemma NoncesExhaustive(i: nat, j: nat, nonce: bytes)
    requires i < j < Pow2(64) && |nonce| == 8
    ensures NonceAfter(i) != NonceAfter(j)
    ensures LittleEndian(nonce) < Pow2(64) && NonceAfter(LittleEndian(nonce)) == nonce
  {
    NonceAfterCounts(i);
    NonceAfterCounts(j);
    LittleEndianRoundTrip(i, 8);
    LittleEndianRoundTrip(j, 8);
    LittleEndianBound(nonce);
    NonceAfterCounts(LittleEndian(nonce));
    BytesOfLittleEndian(nonce);
  }

  /** The unbounded loop stops at some turn exactly when one of the 2^64 nonces is accepted. */
  lemma StopsIff(h: Hash, data: bytes, target: bytes)
    ensures (exists k: nat :: StopsAt(h, data, target, k)) <==>
            exists n: nat :: n < Pow2(64) && Accepts(h, data, target, n)
  {
    if k: nat :| StopsAt(h, data, target, k) {
      var n := LittleEndian(NonceAfter(k));
      LittleEndianBound(NonceAfter(k));
      BytesOfLittleEndian(NonceAfter(k));
      assert n < Pow2(64) && Accepts(h, data, target, n);
    }
    if n: nat :| n < Pow2(64) && Accepts(h, data, target, n) {
      NonceAfterCounts(n);
      assert StopsAt(h, data, target, n);
    }
  }

  /** TypedArray.prototype.set */
  method SetAt(buf: array<byte>, src: array<byte>, offset: nat)
    requires offset + src.Length <= buf.Length && buf != src
    modifies buf
    ensures buf[..offset] == old(buf[..offset])
    ensures buf[offset..offset + src.Length] == src[..]
  {
    for i := 0 to src.Length
      invariant buf[..offset] == old(buf[..offset])
      invariant buf[offset..offset + i] == src[..i]
      invariant src[..] == old(src[..])
    {
      buf[offset + i] := src[i];
      assert buf[offset..offset + i + 1] == buf[offset..offset + i] + [src[i]];
      assert src[..i + 1] == src[..i] + [src[i]];
    }
    assert src[..src.Length] == src[..];
  }

  method Advance(nonce: array<byte>, ghost k: nat)
    requires nonce[..] == NonceAfter(k)
    modifies nonce
    ensures nonce[..] == NonceAfter(k + 1)
  {
    Increment(nonce);
  }

  /** One turn of the loop: write the nonce behind the challenge, hash, compare. */
  method Turn(h: Hash, buf: array<byte>, nonce: array<byte>, data: bytes, target: bytes, ghost k: nat)
    returns (less: bool)
    requires nonce.Length == 8 && nonce[..] == NonceAfter(k)
    requires buf.Length == |data| + 8 && buf[..|data|] == data && buf != nonce
    modifies buf
    ensures buf[..|data|] == data && buf[..] == data + NonceAfter(k)
    ensures less <==> StopsAt(h, data, target, k)
  {
    SetAt(buf, nonce, |data|);
    assert buf[..] == buf[..|data|] + buf[|data|..|data| + 8];
    less := LessThan(h(buf[..]), target);
  }

  /** The first turn at which the loop's exit test succeeds. */
  ghost predicate FirstStop(h: Hash, data: bytes, target: bytes, n: nat) {
    StopsAt(h, data, target, n) && forall k: nat :: k < n ==> !StopsAt(h, data, target, k)
  }

  /** The least accepted nonce, read as a number. */
  ghost predicate LeastAccepted(h: Hash, data: bytes, target: bytes, n: nat) {
    n < Pow2(64) && Accepts(h, data, target, n) && forall m: nat :: m < n ==> !Accepts(h, data, target, m)
  }

  /** The worker's loop: what is in the buffer when it first stops. The precondition is what an endless
      loop needs to stop. */
  method RunLoop(h: Hash, buf: array<byte>, nonce: array<byte>, data: bytes, target: bytes) returns (ghost n: nat)
    requires buf.Length == |data| + 8 && buf[..|data|] == data && buf != nonce
    requires nonce.Length == 8 && nonce[..] == NonceAfter(0)
    requires exists k: nat :: StopsAt(h, data, target, k)
    modifies buf, nonce
    ensures FirstStop(h, data, target, n) && buf[..] == data + NonceAfter(n)
  {
    ghost var bound: nat :| StopsAt(h, data, target, bound);
    n := 0;
    while true
      invariant n <= bound
      invariant forall k: nat :: k < n ==> !StopsAt(h, data, target, k)
      invariant nonce[..] == NonceAfter(n) && buf[..|data|] == data
      decreases bound - n
    {
      var less := Turn(h, buf, nonce, data, target, n);
      if less {
        return;
      }
      Advance(nonce, n);
      n := n + 1;
    }
  }

  /** The search from the decoded challenge and target to the posted text. */
  method SearchFrom(h: Hash, data: array<byte>, target: bytes) returns (result: bytes)
    requires exists k: nat :: StopsAt(h, data[..], target, k)
    ensures exists n: nat :: FirstStop(h, data[..], target, n) && result == Hex.Encoded(data[..] + NonceAfter(n))
  {
    var nonce := new byte[8](i => 0);
    assert nonce[..] == NonceAfter(0);
    var buf := new byte[data.Length + nonce.Length];
    SetAt(buf, data, 0);
    assert buf[..data.Length] == data[..];
    ghost var n := RunLoop(h, buf, nonce, data[..], target);
    result := Encode(buf);
  }

  /** The message handler: decode both strings, then search. It stops at the least nonce the test
      accepts and posts the challenge followed by that nonce; StopsIff says when it stops at all. */
  method Search(h: Hash, challenge: jsstring, target: jsstring) returns (result: bytes)
    requires exists m: nat :: m < Pow2(64) && Accepts(h, DecodedHex(challenge), DecodedHex(target), m)
    ensures exists n: nat :: LeastAccepted(h, DecodedHex(challenge), DecodedHex(target), n)
              && result == Hex.Encoded(DecodedHex(challenge) + LittleEndianBytes(n, 8))
  {
    var data := DecodeHex(challenge);
    var targetBytes := DecodeHex(target);
    ghost var d, t := data[..], targetBytes[..];
    StopsIff(h, d, t);
    result := SearchFrom(h, data, targetBytes[..]);
    ghost var n: nat :| FirstStop(h, d, t, n) && result == Hex.Encoded(d + NonceAfter(n));
    FirstStopIsLeastAccepted(h, d, t, n);
  }

  /** The turn at which the loop stops is the least accepted nonce. */
  lemma FirstStopIsLeastAccepted(h: Hash, data: bytes, target: bytes, n: nat)
    requires exists m: nat :: m < Pow2(64) && Accepts(h, data, target, m)
    requires FirstStop(h, data, target, n)
    ensures LeastAccepted(h, data, target, n) && NonceAfter(n) == LittleEndianBytes(n, 8)
  {
    var m: nat :| m < Pow2(64) && Accepts(h, data, target, m);
    NonceAfterCounts(m);
    assert StopsAt(h, data, target, m);
    assert n <= m;
    NonceAfterCounts(n);
    forall k: nat | k < n ensures !Accepts(h, data, target, k) {
      NonceAfterCounts(k);
      assert !StopsAt(h, data, target, k);
    }
  }
}
