/** The two halves of the proof of work put together. */
module PowProtocol {
  import opened Bytes
  import opened Threshold
  import Hex
  import Server = PowServer
  import Client = PowClient

  /** Up to difficulty 256 the target is 2^(256 - d) - 1, the server accepts exactly the hashes up to
      and including it, and the client exactly those below it: they differ on one hash. */
  lemma TestsDifferOnlyOnTarget(d: nat, target: Digest, digest: Digest)
    requires d <= 256 && BigEndian(target) == TargetValue(32, d)
    ensures BigEndian(target) == Pow2(256 - d) - 1
    ensures LeadingZeros(digest) >= Server.Narrow32(d) <==> LexLess(digest, target) || digest == target
    ensures !LexLess(target, target)
  {
    Server.BoundDecides(digest, d);
    Server.BoundUpTo256(d);
    LexLessIsNumeric(digest, target);
    LexLessIsNumeric(target, target);
    if BigEndian(digest) == BigEndian(target) {
      BigEndianInjective(digest, target);
    }
  }

  /** From difficulty 256 on the target is zero and the worker's loop never stops. */
  lemma UnsolvableFrom256(h: Hash, data: bytes, d: nat, target: Digest, k: nat)
    requires d >= 256 && BigEndian(target) == TargetValue(32, d)
    ensures !Client.StopsAt(h, data, target, k)
  {
    LexLessIsNumeric(h(data + Client.NonceAfter(k)), target);
  }

  /** The challenge bytes both ends work on. */
  function Challenge(h: Hash, key: bytes, params: map<string, string>): Digest
    requires Server.Difficulty(params).Some?
  {
    Server.ChallengeDigest(h, key, Server.Difficulty(params).value)
  }

  /** The target for the configured difficulty. */
  ghost predicate IsTarget(params: map<string, string>, target: Digest) {
    Server.Difficulty(params).Some? && BigEndian(target) == TargetValue(32, Server.Difficulty(params).value)
  }

  /** The client's test on its n-th nonce, for this key. */
  predicate ClientAccepts(h: Hash, key: bytes, params: map<string, string>, target: Digest, n: nat)
    requires Server.Difficulty(params).Some?
  {
    Client.Accepts(h, Challenge(h, key, params), target, n)
  }

  /** What the client posts for its n-th nonce. */
  function Posted(h: Hash, key: bytes, params: map<string, string>, n: nat): bytes
    requires Server.Difficulty(params).Some?
  {
    Hex.Encoded(Challenge(h, key, params) + LittleEndianBytes(n, 8))
  }

  /** Soundness of the client for every 64-bit difficulty: what its test accepts, the server accepts. */
  lemma AcceptedNonceVerifies(h: Hash, key: bytes, params: map<string, string>, target: Digest, n: nat)
    requires IsTarget(params, target) && ClientAccepts(h, key, params, target, n)
    ensures Server.VerdictOf(h, key, params, Posted(h, key, params, n)) == Server.OK
  {
    var d := Server.Difficulty(params).value;
    var nonce := LittleEndianBytes(n, 8);
    var digest := h(Challenge(h, key, params) + nonce);
    LexLessIsNumeric(digest, target);
    assert d < 256;
    TestsDifferOnlyOnTarget(d, target, digest);
    Server.VerdictOnEncoded(h, key, params, nonce);
  }

  /** Completeness: the nonces the server accepts are those the client's test accepts and those whose
      hash is the target itself. */
  lemma AcceptedByServerIff(h: Hash, key: bytes, params: map<string, string>, target: Digest, n: nat)
    requires IsTarget(params, target) && Server.Difficulty(params).value <= 256
    ensures Server.VerdictOf(h, key, params, Posted(h, key, params, n)) == Server.OK <==>
            ClientAccepts(h, key, params, target, n)
            || h(Challenge(h, key, params) + LittleEndianBytes(n, 8)) == target
  {
    var nonce := LittleEndianBytes(n, 8);
    var digest := h(Challenge(h, key, params) + nonce);
    TestsDifferOnlyOnTarget(Server.Difficulty(params).value, target, digest);
    Server.VerdictOnEncoded(h, key, params, nonce);
  }

  ghost predicate Solvable(h: Hash, key: bytes, params: map<string, string>, target: Digest) {
    Server.Difficulty(params).Some? && exists m: nat :: m < Pow2(64) && ClientAccepts(h, key, params, target, m)
  }

  /** The post for the least nonce that the client's test accepts. */
  ghost predicate IsLeastPost(h: Hash, key: bytes, params: map<string, string>, target: Digest, posted: bytes) {
    && Server.Difficulty(params).Some?
    && exists n: nat ::
         Client.LeastAccepted(h, Challenge(h, key, params), target, n) && posted == Posted(h, key, params, n)
  }

  /** The whole exchange: the puzzle is made, searched and verified. Whenever the search can stop at
      all, it stops at the least accepted nonce and the verdict is OK. */
  method Exchange(h: Hash, key: bytes, params: map<string, string>, ghost target: Digest)
    returns (posted: bytes, verdict: Server.Verdict)
    requires IsTarget(params, target) && Solvable(h, key, params, target)
    ensures verdict == Server.OK && IsLeastPost(h, key, params, target, posted)
  {
    var made := Server.MakeChallenge(h, key, params);
    var puzzle := made.value;
    PuzzleReadsBack(h, key, params, puzzle, target);
    posted := Search(h, key, params, puzzle, target);
    ghost var n: nat :|
      Client.LeastAccepted(h, Challenge(h, key, params), target, n) && posted == Posted(h, key, params, n);
    assert ClientAccepts(h, key, params, target, n);
    AcceptedNonceVerifies(h, key, params, target, n);
    verdict := Submit(h, key, params, posted);
  }

  method Submit(h: Hash, key: bytes, params: map<string, string>, posted: bytes) returns (verdict: Server.Verdict)
    ensures verdict == Server.VerdictOf(h, key, params, posted)
  {
    var input := new byte[|posted|](i requires 0 <= i < |posted| => posted[i]);
    assert input[..] == posted;
    verdict := Server.VerifyChallenge(h, key, params, input);
  }

  /** The browser's search on the puzzle it was sent. */
  method Search(h: Hash, key: bytes, params: map<string, string>, puzzle: Server.Puzzle, ghost target: Digest)
    returns (posted: bytes)
    requires IsTarget(params, target) && Solvable(h, key, params, target)
    requires puzzle.challenge == Hex.Encoded(Challenge(h, key, params)) && puzzle.target == Hex.Encoded(target)
    ensures IsLeastPost(h, key, params, target, posted)
  {
    ReadsBack(Challenge(h, key, params));
    ReadsBack(target);
    ghost var m: nat :| m < Pow2(64) && ClientAccepts(h, key, params, target, m);
    assert Client.Accepts(h, Challenge(h, key, params), target, m);
    posted := Client.Search(h, puzzle.challenge, puzzle.target);
  }

  lemma PuzzleReadsBack(h: Hash, key: bytes, params: map<string, string>, p: Server.Puzzle, target: Digest)
    requires IsTarget(params, target)
    requires Server.IsPuzzle(h, key, Server.Difficulty(params).value, p)
    ensures p.challenge == Hex.Encoded(Challenge(h, key, params)) && p.target == Hex.Encoded(target)
  {
    BigEndianInjective(Hex.Decoded(p.target, 32), target);
  }

  /** The browser reads back the bytes the server encoded. */
  lemma ReadsBack(d: bytes)
    ensures Client.DecodedHex(Hex.Encoded(d)) == d
  {
    Hex.DecodeEncode(d);
    Client.DecodeAgrees(Hex.Encoded(d));
    assert |Hex.Encoded(d)| / 2 == |d|;
  }
}
