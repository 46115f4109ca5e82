/** The server half of the proof of work: embed/challenge/js-pow-sha256/runtime/runtime.go. */
module PowServer {
  import opened Bytes
  import opened Threshold
  import opened Decimals
  import Hex

  datatype Verdict = OK | Failed | Error

  /** The two hex strings and the difficulty that MakeChallenge sends. */
  datatype Puzzle = Puzzle(challenge: bytes, target: bytes, difficulty: nat)

  const DEFAULT_DIFFICULTY := 20

  /** strconv.ParseUint(s, 10, 64): digits only, not empty, below 2^64. */
  function ParseUint64(s: string): (r: Option<nat>)
    ensures r.Some? ==> r.value < Pow2(64)
  {
    if s == [] || !AllDigits(s) then None
    else if DecimalValue(s) < Pow2(64) then Some(DecimalValue(s)) else None
  }

  /** A setting means n exactly when it is the decimal text of n, leading zeros aside, and n fits. */
  lemma ParsesIff(s: string, n: nat)
    ensures ParseUint64(s) == Some(n) <==> n < Pow2(64) && exists z: nat :: s == Zeros(z) + Decimal(n)
  {
    if ParseUint64(s) == Some(n) {
      var z := DecimalOfValue(s);
    }
    if z: nat :| s == Zeros(z) + Decimal(n) {
      ValueOfDecimal(z, n);
    }
  }

  /** None stands for the panic on a malformed setting. */
  function Difficulty(params: map<string, string>): (d: Option<nat>)
    ensures d.Some? ==> d.value < Pow2(64)
  {
    if "difficulty" in params then ParseUint64(params["difficulty"])
    else
      assert DEFAULT_DIFFICULTY < Pow2(5) by { assert Pow2(5) == 32; }
      Pow2Monotone(5, 64);
      Some(DEFAULT_DIFFICULTY)
  }

  /** Twenty unless configured, and else the number the setting spells. */
  lemma DifficultyIff(params: map<string, string>, n: nat)
    ensures Difficulty(params) == Some(n) <==>
            if "difficulty" in params then n < Pow2(64) && exists z: nat :: params["difficulty"] == Zeros(z) + Decimal(n)
            else n == 20
  {
    if "difficulty" in params {
      ParsesIff(params["difficulty"], n);
    }
  }

  /** getChallenge's digest. */
  function ChallengeDigest(h: Hash, key: bytes, difficulty: nat): Digest {
    h(LittleEndianBytes(difficulty, 8) + key)
  }

  /** Unless the hash collides on the two inputs at hand, a digest belongs to one key and one difficulty. */
  lemma DigestBinds(h: Hash, key: bytes, d: nat, other: bytes, e: nat)
    requires d < Pow2(64) && e < Pow2(64)
    requires h(LittleEndianBytes(d, 8) + key) == h(LittleEndianBytes(e, 8) + other) ==>
             LittleEndianBytes(d, 8) + key == LittleEndianBytes(e, 8) + other
    ensures ChallengeDigest(h, key, d) == ChallengeDigest(h, other, e) <==> key == other && d == e
  {
    if ChallengeDigest(h, key, d) == ChallengeDigest(h, other, e) {
      SplitAt(LittleEndianBytes(d, 8), key, LittleEndianBytes(e, 8), other);
      LittleEndianRoundTrip(d, 8);
      LittleEndianRoundTrip(e, 8);
    }
  }

  lemma SplitAt(a: bytes, r: bytes, b: bytes, s: bytes)
    requires |a| == |b| && a + r == b + s
    ensures a == b && r == s
  {
    assert a == (a + r)[..|a|] && r == (a + r)[|a|..];
    assert b == (b + s)[..|b|] && s == (b + s)[|b|..];
  }

  /** int(difficulty) on the 32-bit target this runtime is compiled for. */
  function Narrow32(d: nat): int {
    if d % Pow2(32) < Pow2(31) then d % Pow2(32) else d % Pow2(32) - Pow2(32)
  }

  /** The one number of 32 signed bits that differs from d by a multiple of 2^32. */
  lemma NarrowIff(d: nat, n: int)
    ensures Narrow32(d) == n <==> 0 <= n + Pow2(31) < Pow2(32) && exists k: int :: d == n + k * Pow2(32)
  {
    Pow2Add(1, 31);
    assert Pow2(1) == 2;
    WrapsTo(d, n, Pow2(31));
  }

  lemma WrapsTo(d: nat, n: int, half: nat)
    requires half > 0
    ensures var p := 2 * half;
            n == (if d % p < half then d % p else d % p - p) <==> 0 <= n + half < p && exists k: int :: d == n + k * p
  {
    var p := 2 * half;
    var q := d / p;
    assert d == q * p + d % p && (q + 1) * p == q * p + p;
    assert d == d % p + q * p && d == d % p - p + (q + 1) * p;
    if k: int :| 0 <= n + half < p && d == n + k * p {
      assert (k - 1) * p == k * p - p;
      if n >= 0 {
        DivModOf(k, n, p);
      } else {
        DivModOf(k - 1, n + p, p);
      }
    }
  }

  /** The hashes the server accepts at a difficulty are those below this number. */
  function ServerBound(d: nat): nat {
    var n := Narrow32(d);
    if n <= 0 then Pow2(256) else if n <= 256 then Pow2(256 - n) else 0
  }

  /** What VerifyChallenge answers to a posted result. */
  function VerdictOf(h: Hash, key: bytes, params: map<string, string>, posted: bytes): Verdict {
    if Difficulty(params).None? then Error
    else if Hex.DecodeOutcome(posted) != Hex.NoError then Error
    else
      var d := Difficulty(params).value;
      Hex.DecodeSucceedsIff(posted);
      assert posted[..2 * (|posted| / 2)] == posted;
      var result := Hex.Decoded(posted, |posted| / 2);
      if |result| < 8 then Error
      else if result[..|result| - 8] != ChallengeDigest(h, key, d) then Failed
      else if LeadingZeros(h(result)) < Narrow32(d) then Failed
      else OK
  }

  /** The leading-zero test is a numeric bound, for every difficulty the narrowing can produce. */
  lemma BoundDecides(digest: Digest, d: nat)
    ensures LeadingZeros(digest) >= Narrow32(d) <==> BigEndian(digest) < ServerBound(d)
  {
    BigEndianBound(digest);
    var n := Narrow32(d);
    if 0 < n <= 256 {
      LeadingZerosMeans(digest, n);
    }
  }

  /** Up to 256 no narrowing happens: the bound is 2^(256 - d). */
  lemma BoundUpTo256(d: nat)
    requires d <= 256
    ensures Narrow32(d) == d && ServerBound(d) == Pow2(256 - d)
  {
    assert Pow2(9) == 512;
    Pow2Monotone(9, 31);
    Pow2Monotone(31, 32);
    SmallMod(d, Pow2(32));
  }

  lemma SmallMod(d: nat, m: nat)
    requires d < m
    ensures d % m == d
  {
  }

  /** A result is accepted exactly when it spells, in either letter case, this key's challenge
      followed by an eight-byte nonce whose hash is below the bound. */
  lemma AcceptedIff(h: Hash, key: bytes, params: map<string, string>, posted: bytes)
    ensures VerdictOf(h, key, params, posted) == OK <==>
            Difficulty(params).Some? &&
            exists nonce: bytes :: |nonce| == 8 && Solves(h, key, Difficulty(params).value, nonce, posted)
  {
    if VerdictOf(h, key, params, posted) == OK {
      var nonce := AcceptedNonce(h, key, params, posted);
    }
    if Difficulty(params).Some? {
      if nonce: bytes :| |nonce| == 8 && Solves(h, key, Difficulty(params).value, nonce, posted) {
        SolutionAccepted(h, key, params, nonce, posted);
      }
    }
  }

  lemma AcceptedNonce(h: Hash, key: bytes, params: map<string, string>, posted: bytes) returns (nonce: bytes)
    requires VerdictOf(h, key, params, posted) == OK
    ensures |nonce| == 8 && Solves(h, key, Difficulty(params).value, nonce, posted)
  {
    var d := Difficulty(params).value;
    Hex.DecodeSucceedsIff(posted);
    Hex.EncodeDecode(posted);
    var result := Hex.Decoded(posted, |posted| / 2);
    nonce := result[|result| - 8..];
    CutInTwo(result, |result| - 8);
    BoundDecides(h(result), d);
  }

  lemma CutInTwo(s: bytes, n: nat)
    requires n <= |s|
    ensures s == s[..n] + s[n..]
  {
  }

  /** Error, rather than Failed, is for what cannot be read: a bad setting, bad hex, or less than a nonce. */
  lemma ErrorIff(h: Hash, key: bytes, params: map<string, string>, posted: bytes)
    ensures VerdictOf(h, key, params, posted) == Error <==>
            Difficulty(params).None? || |posted| % 2 == 1 || !Hex.AllHex(posted) || |posted| < 16
  {
    Hex.DecodeSucceedsIff(posted);
  }

  /** A solution is good for one key and one difficulty, unless the hash collides on the two inputs at hand. */
  lemma SolutionBinds(h: Hash, key: bytes, params: map<string, string>, other: bytes, others: map<string, string>, posted: bytes)
    requires VerdictOf(h, key, params, posted) == OK && VerdictOf(h, other, others, posted) == OK
    requires var x := LittleEndianBytes(Difficulty(params).value, 8) + key;
             var y := LittleEndianBytes(Difficulty(others).value, 8) + other;
             h(x) == h(y) ==> x == y
    ensures key == other && Difficulty(params) == Difficulty(others)
  {
    DigestBinds(h, key, Difficulty(params).value, other, Difficulty(others).value);
  }

  ghost predicate Solves(h: Hash, key: bytes, d: nat, nonce: bytes, posted: bytes) {
    var c := ChallengeDigest(h, key, d);
    Hex.Lowered(posted) == Hex.Encoded(c + nonce) && BigEndian(h(c + nonce)) < ServerBound(d)
  }

  lemma SolutionAccepted(h: Hash, key: bytes, params: map<string, string>, nonce: bytes, posted: bytes)
    requires Difficulty(params).Some? && |nonce| == 8
    requires Solves(h, key, Difficulty(params).value, nonce, posted)
    ensures VerdictOf(h, key, params, posted) == OK
  {
    var d := Difficulty(params).value;
    var r := ChallengeDigest(h, key, d) + nonce;
    Hex.SpellingDecodes(posted, r);
    assert |posted| / 2 == |r|;
    Hex.DecodeSucceedsIff(posted);
    BoundDecides(h(r), d);
    assert r[..|r| - 8] == ChallengeDigest(h, key, d);
  }

  /** On the encoding of a well-formed result only the hash test is left to decide. */
  lemma VerdictOnEncoded(h: Hash, key: bytes, params: map<string, string>, nonce: bytes)
    requires Difficulty(params).Some? && |nonce| == 8
    ensures
      var d := Difficulty(params).value;
      var r := ChallengeDigest(h, key, d) + nonce;
      VerdictOf(h, key, params, Hex.Encoded(r)) == if LeadingZeros(h(r)) < Narrow32(d) then Failed else OK
  {
    var r := ChallengeDigest(h, key, Difficulty(params).value) + nonce;
    Hex.DecodeEncode(r);
    Hex.DecodeSucceedsIff(Hex.Encoded(r));
    assert |Hex.Encoded(r)| / 2 == |r|;
    assert r[..|r| - 8] == ChallengeDigest(h, key, Difficulty(params).value);
  }

  /** A puzzle for a key: its digest in hex, and a target of value 2^(256 - d) - 1 in hex. */
  ghost predicate IsPuzzle(h: Hash, key: bytes, d: nat, p: Puzzle) {
    && p.challenge == Hex.Encoded(ChallengeDigest(h, key, d))
    && p.difficulty == d
    && |p.target| == 64 && Hex.AllHex(p.target) && p.target[..2 * 32] == p.target
    && BigEndian(Hex.Decoded(p.target, 32)) == TargetValue(32, d)
    && p.target == Hex.Encoded(Hex.Decoded(p.target, 32))
  }

  /** hex.Encode into a fresh buffer. */
  method HexOf(src: array<byte>) returns (text: bytes)
    ensures text == Hex.Encoded(src[..])
  {
    var dst := new byte[Hex.EncodedLen(src.Length)];
    var n := Hex.Encode(dst, src);
    text := dst[..n];
  }

  lemma TargetTextReadsBack(target: bytes, text: bytes)
    requires |target| == 32 && text == Hex.Encoded(target)
    ensures |text| == 64 && Hex.AllHex(text) && text[..2 * 32] == text && Hex.Decoded(text, 32) == target
  {
    Hex.DecodeEncode(target);
    assert text[..2 * 32] == text;
  }

  /** None is the recovered panic, answered with code 500. */
  method MakeChallenge(h: Hash, key: bytes, params: map<string, string>) returns (out: Option<Puzzle>)
    ensures out.Some? <==> Difficulty(params).Some?
    ensures out.Some? ==> IsPuzzle(h, key, Difficulty(params).value, out.value)
  {
    var parsed := Difficulty(params);
    if parsed.None? {
      return None;
    }
    var difficulty := parsed.value;
    var digest := ChallengeDigest(h, key, difficulty);
    var c := new byte[32](i requires 0 <= i < 32 => digest[i]);
    assert c[..] == digest;
    var target := BuildTarget(c.Length, difficulty);
    var challengeText := HexOf(c);
    var targetText := HexOf(target);
    TargetTextReadsBack(target[..], targetText);
    out := Some(Puzzle(challengeText, targetText, difficulty));
  }

  method VerifyChallenge(h: Hash, key: bytes, params: map<string, string>, posted: array<byte>)
    returns (verdict: Verdict)
    ensures verdict == VerdictOf(h, key, params, posted[..])
  {
    var parsed := Difficulty(params);
    if parsed.None? {
      return Error;
    }
    var difficulty := parsed.value;
    var c := ChallengeDigest(h, key, difficulty);
    var buffer := new byte[Hex.DecodedLen(posted.Length)];
    var n, err := Hex.Decode(buffer, posted);
    if err != Hex.NoError {
      return Error;
    }
    Hex.DecodeSucceedsIff(posted[..]);
    Hex.HexPrefixIs(posted[..], posted.Length);
    var result := buffer[..n];
    if |result| < 8 {
      return Error;
    }
    if result[..|result| - 8] != c {
      return Failed;
    }
    var count := CountLeadingZeros(h(result));
    if count < Narrow32(difficulty) {
      return Failed;
    }
    return OK;
  }
}
