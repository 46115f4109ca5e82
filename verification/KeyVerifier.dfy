/** The verifier most challenges share: NewKeyVerifier of lib/challenge/helper.go. */
module KeyVerifier {
  import opened Bytes
  import opened Verify
  import Hex
  import Keys = ChallengeKey

  datatype KeyError = NoKeyError | Malformed | InvalidToken | Mismatched | HappyEyeballs

  const KEY_SIZE := 32

  /** Key.Get(KeyFlagIsIPv4) > 0 */
  predicate MarkedIPv4(key: Digest) {
    Keys.FlagsOf(key) & Keys.KEY_FLAG_IPV4 > 0
  }

  /** Keys made for requests are marked exactly for IPv4 clients. */
  lemma MarkedIff(h: Hash, x: Keys.KeyInput, ks: seq<bytes>, fingerprint: bytes)
    requires |x.values| == |ks|
    ensures MarkedIPv4(Keys.KeyOf(h, x, ks, fingerprint)) <==> Keys.IsIPv4(x.addr)
  {
  }

  /** The token handed out for a key. */
  function Issue(key: Digest): bytes {
    Hex.Encoded(key)
  }

  function Check(key: Digest, token: bytes): (VerifyResult, KeyError) {
    if Hex.DecodeOutcome(token) != Hex.NoError then (Fail, Malformed)
    else if |token| / 2 != KEY_SIZE then (Fail, InvalidToken)
    else
      Hex.DecodeSucceedsIff(token);
      assert token[..2 * KEY_SIZE] == token;
      var expected := Hex.Decoded(token, KEY_SIZE);
      if key == expected then (OK, NoKeyError)
      else if !MarkedIPv4(key) && MarkedIPv4(expected) then (OK, HappyEyeballs)
      else (Fail, Mismatched)
  }

  /** A token is accepted without an error exactly when it spells the key, in either letter case; in
      particular the token issued for a key is accepted for that key and no other. */
  lemma AcceptedIff(key: Digest, token: bytes, other: Digest)
    ensures Check(key, token) == (OK, NoKeyError) <==> Hex.Lowered(token) == Issue(key)
    ensures Check(key, Issue(other)) == (OK, NoKeyError) <==> key == other
  {
    CheckSpelling(key, token);
    Hex.DecodeEncode(other);
    LoweredIssue(other);
    CheckSpelling(key, Issue(other));
    if Issue(other) == Issue(key) {
      Hex.EncodedInjective(other, key);
    }
  }

  lemma LoweredIssue(key: Digest)
    ensures Hex.Lowered(Issue(key)) == Issue(key)
  {
    Hex.DecodeEncode(key);
    Hex.DecodeSucceedsIff(Issue(key));
    Hex.EncodeDecode(Issue(key));
  }

  lemma CheckSpelling(key: Digest, token: bytes)
    ensures Check(key, token) == (OK, NoKeyError) <==> Hex.Lowered(token) == Issue(key)
  {
    Hex.DecodeSucceedsIff(token);
    if Hex.Lowered(token) == Issue(key) {
      Hex.SpellingDecodes(token, key);
    }
    if Check(key, token) == (OK, NoKeyError) {
      Hex.EncodeDecode(token);
      assert |token| / 2 == KEY_SIZE;
    }
  }

  /** The retry signal means: this request is not IPv4, and the token was issued to an IPv4 one. */
  lemma HappyEyeballsIff(h: Hash, x: Keys.KeyInput, issued: Keys.KeyInput, ks: seq<bytes>, fingerprint: bytes)
    requires |x.values| == |ks| == |issued.values|
    ensures Check(Keys.KeyOf(h, x, ks, fingerprint), Issue(Keys.KeyOf(h, issued, ks, fingerprint))).1 == HappyEyeballs
            <==> !Keys.IsIPv4(x.addr) && Keys.IsIPv4(issued.addr)
  {
    MarkedIff(h, x, ks, fingerprint);
    MarkedIff(h, issued, ks, fingerprint);
    RetryIff(Keys.KeyOf(h, x, ks, fingerprint), Keys.KeyOf(h, issued, ks, fingerprint));
  }

  /** Every outcome. The retry comes with an OK result next to its error, which callers treat as an error. */
  lemma OutcomeIs(key: Digest, token: bytes)
    ensures Check(key, token).1 == Malformed <==> |token| % 2 == 1 || !Hex.AllHex(token)
    ensures Check(key, token).1 == InvalidToken <==> |token| % 2 == 0 && Hex.AllHex(token) && |token| != 64
    ensures forall issued: Digest :: Hex.Lowered(token) == Issue(issued) ==>
              Check(key, token) ==
              (if issued == key then (OK, NoKeyError)
               else if !MarkedIPv4(key) && MarkedIPv4(issued) then (OK, HappyEyeballs)
               else (Fail, Mismatched))
    ensures Check(key, token).1 in {Malformed, InvalidToken} ==> Check(key, token).0 == Fail
  {
    Hex.DecodeSucceedsIff(token);
    forall issued: Digest | Hex.Lowered(token) == Issue(issued)
      ensures Hex.DecodeOutcome(token) == Hex.NoError && |token| == 64 && token[..64] == token && Hex.AllHex(token)
              && Hex.Decoded(token, 32) == issued
    {
      Hex.SpellingDecodes(token, issued);
    }
  }

  lemma RetryIff(key: Digest, issued: Digest)
    ensures Check(key, Issue(issued)).1 == HappyEyeballs <==> !MarkedIPv4(key) && MarkedIPv4(issued)
  {
    Hex.DecodeEncode(issued);
    assert |Issue(issued)| / 2 == KEY_SIZE;
  }
}
