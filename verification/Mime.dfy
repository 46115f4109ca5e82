/** MIME header keys: utils/inline/mime.go. Bytes are bit vectors here, because the validity test is
    a bitmap. */
module Mime {

  type byte = bv8
  type bytes = seq<byte>

  // ---- the token bitmap -------------------------------------------------

  /** Go's shift of a 64-bit word by a byte: counts of 64 and more give zero. */
  function Shl(word: bv64, count: byte): bv64 {
    if count >= 64 then 0 else word << count
  }

  /** The low and the high word of the 128-bit mask. */
  const MASK_LOW: bv64 :=
    (((1 << 10) - 1) << 48) | (1 << 33) | (1 << 35) | (1 << 36) | (1 << 37) | (1 << 38) | (1 << 39)
    | (1 << 42) | (1 << 43) | (1 << 45) | (1 << 46)

  const MASK_HIGH: bv64 :=
    (((1 << 26) - 1) << 33) | (((1 << 26) - 1) << 1) | (1 << 30) | (1 << 31) | (1 << 32) | (1 << 60) | (1 << 62)

  predicate IsLower(c: byte) { 97 <= c <= 122 }

  predicate IsUpper(c: byte) { 65 <= c <= 90 }

  predicate IsDigit(c: byte) { 48 <= c <= 57 }

  /** tchar of section 3.2.6 of RFC 7230: letters, digits and ! # $ % & ' * + - . ^ _ ` | ~ */
  predicate IsTchar(c: byte) {
    IsLower(c) || IsUpper(c) || IsDigit(c)
    || c == 33 || c == 35 || c == 36 || c == 37 || c == 38 || c == 39 || c == 42 || c == 43 || c == 45 || c == 46
    || c == 94 || c == 95 || c == 96 || c == 124 || c == 126
  }

  /** The two-word bitmap decides exactly the token characters, for all 256 bytes. */
  predicate ValidHeaderFieldByte(c: byte)
    ensures ValidHeaderFieldByte(c) <==> IsTchar(c)
  {
    (Shl(1, c) & MASK_LOW) | (Shl(1, c - 64) & MASK_HIGH) != 0
  }

  // ---- the canonical form -----------------------------------------------

  const DASH: byte := 45
  const SPACE: byte := 32

  /** toLower: the distance between the cases. */
  const TO_LOWER: byte := 32

  function ToUpper(c: byte): byte { if IsLower(c) then c - TO_LOWER else c }

  function ToLower(c: byte): byte { if IsUpper(c) then c + TO_LOWER else c }

  predicate IsToken(s: bytes) {
    forall i :: 0 <= i < |s| ==> IsTchar(s[i])
  }

  function Lowered(s: bytes): bytes {
    seq(|s|, i requires 0 <= i < |s| => ToLower(s[i]))
  }

  /** Upper case at the start and after every dash, lower case elsewhere. */
  function Cased(s: bytes): (r: bytes)
    ensures |r| == |s|
  {
    seq(|s|, i requires 0 <= i < |s| => if i == 0 || s[i - 1] == DASH then ToUpper(s[i]) else ToLower(s[i]))
  }

  /** The canonical key: strings with any non-token byte are left alone. */
  function Canonical(s: bytes): (r: bytes)
    ensures |r| == |s|
  {
    if IsToken(s) then Cased(s) else s
  }

  lemma CasedKeepsTokens(s: bytes)
    ensures IsToken(Cased(s)) <==> IsToken(s)
    ensures forall i :: 0 <= i < |s| ==> (Cased(s)[i] == DASH <==> s[i] == DASH)
    ensures Lowered(Cased(s)) == Lowered(s)
  {
    var r := Cased(s);
    forall i | 0 <= i < |s|
      ensures IsTchar(r[i]) <==> IsTchar(s[i])
      ensures r[i] == DASH <==> s[i] == DASH
      ensures ToLower(r[i]) == ToLower(s[i])
    {
    }
    assert forall i :: 0 <= i < |s| ==> (IsTchar(r[i]) <==> IsTchar(s[i]));
  }

  predicate StartsWord(s: bytes, i: nat)
    requires i < |s|
  {
    i == 0 || s[i - 1] == DASH
  }

  /** The shape of a canonical token: no lower-case letter starts a word, no upper-case letter stands
      elsewhere, and only case has changed; anything else is returned as it came. */
  lemma CanonicalShape(s: bytes, i: nat)
    requires i < |s|
    ensures IsToken(s) && StartsWord(s, i) ==> !IsLower(Canonical(s)[i])
    ensures IsToken(s) && !StartsWord(s, i) ==> !IsUpper(Canonical(s)[i])
    ensures ToLower(Canonical(s)[i]) == ToLower(s[i])
    ensures !IsToken(s) ==> Canonical(s) == s
  {
    CaseLaws(s[i]);
    if IsToken(s) {
      assert Cased(s)[i] == if StartsWord(s, i) then ToUpper(s[i]) else ToLower(s[i]);
    }
  }

  lemma CaseLaws(c: byte)
    ensures !IsLower(ToUpper(c)) && !IsUpper(ToLower(c))
    ensures ToLower(ToUpper(c)) == ToLower(c) && ToLower(ToLower(c)) == ToLower(c)
  {
  }

  lemma CanonicalIdempotent(s: bytes)
    ensures Canonical(Canonical(s)) == Canonical(s)
  {
    if IsToken(s) {
      CasedKeepsTokens(s);
      var r := Cased(s);
      forall i | 0 <= i < |s| ensures Cased(r)[i] == r[i] {
        assert i > 0 ==> (r[i - 1] == DASH <==> s[i - 1] == DASH);
      }
      assert Cased(r) == r;
    }
  }

  /** Two tokens share a canonical key exactly when they are equal up to ASCII case. */
  lemma CanonicalEqualIff(s: bytes, t: bytes)
    requires IsToken(s) && IsToken(t)
    ensures Canonical(s) == Canonical(t) <==> Lowered(s) == Lowered(t)
  {
    CasedKeepsTokens(s);
    CasedKeepsTokens(t);
    if Lowered(s) == Lowered(t) {
      CasedOfLowered(s, t);
    }
  }

  lemma CasedOfLowered(s: bytes, t: bytes)
    requires Lowered(s) == Lowered(t)
    ensures Cased(s) == Cased(t)
  {
    assert |s| == |Lowered(s)| == |Lowered(t)| == |t|;
    forall i | 0 <= i < |s| ensures ToUpper(s[i]) == ToUpper(t[i]) && (s[i] == DASH <==> t[i] == DASH) {
      assert ToLower(s[i]) == Lowered(s)[i] == Lowered(t)[i] == ToLower(t[i]);
      SameLowered(s[i], t[i]);
    }
    forall i | 0 <= i < |s| ensures Cased(s)[i] == Cased(t)[i] {
      assert ToLower(s[i]) == Lowered(s)[i] == Lowered(t)[i] == ToLower(t[i]);
      assert i > 0 ==> (s[i - 1] == DASH <==> t[i - 1] == DASH);
    }
  }

  lemma SameLowered(c: byte, d: byte)
    requires ToLower(c) == ToLower(d)
    ensures ToUpper(c) == ToUpper(d) && (c == DASH <==> d == DASH)
  {
  }

  // ---- the two algorithms -----------------------------------------------

  /** One step of the rewriting loop. */
  function Recased(upper: bool, c: byte): (r: byte)
    ensures r == if upper then ToUpper(c) else ToLower(c)
    ensures r == DASH <==> c == DASH
  {
    if upper && IsLower(c) then c - TO_LOWER
    else if !upper && IsUpper(c) then c + TO_LOWER
    else c
  }

  /** The validity loop: stop at the first byte that is neither a token byte nor a space. */
  method Scan(a: array<byte>) returns (clean: bool, noCanon: bool)
    ensures clean <==> forall k :: 0 <= k < a.Length ==> IsTchar(a[k]) || a[k] == SPACE
    ensures clean ==> (noCanon <==> !IsToken(a[..]))
  {
    noCanon := false;
    for i := 0 to a.Length
      invariant forall k :: 0 <= k < i ==> IsTchar(a[k]) || a[k] == SPACE
      invariant noCanon <==> exists k :: 0 <= k < i && !IsTchar(a[k])
    {
      if ValidHeaderFieldByte(a[i]) {
        continue;
      }
      if a[i] == SPACE {
        noCanon := true;
        continue;
      }
      return false, noCanon;
    }
    clean := true;
    assert noCanon ==> exists k :: 0 <= k < a.Length && !IsTchar(a[..][k]) by {
      if noCanon {
        var k :| 0 <= k < a.Length && !IsTchar(a[k]);
        assert !IsTchar(a[..][k]);
      }
    }
  }

  /** The rewriting loop. */
  method Rewrite(a: array<byte>)
    modifies a
    ensures a[..] == Cased(old(a[..]))
  {
    ghost var was := a[..];
    var upper := true;
    for i := 0 to a.Length
      invariant upper <==> i == 0 || was[i - 1] == DASH
      invariant a[i..] == was[i..]
      invariant a[..i] == Cased(was)[..i]
    {
      ghost var rest := a[i..];
      assert a[i] == rest[0] == was[i];
      var c := Recased(upper, a[i]);
      assert c == Cased(was)[i];
      a[i] := c;
      assert a[..i + 1] == a[..i] + [c];
      assert a[i + 1..] == rest[1..] == was[i + 1..];
      upper := c == DASH;
    }
    assert a[..a.Length] == a[..];
  }

  /** canonicalMIMEHeaderKey, which rewrites its argument in place. */
  method CanonicalInPlace(a: array<byte>) returns (s: bytes, ok: bool)
    modifies a
    ensures s == Canonical(old(a[..])) && a[..] == s
    ensures ok <==> a.Length > 0 && forall i :: 0 <= i < a.Length ==> IsTchar(old(a[i])) || old(a[i]) == SPACE
  {
    if a.Length == 0 {
      assert a[..] == [] && Cased([]) == [];
      return [], false;
    }
    var clean, noCanon := Scan(a);
    if !clean {
      assert !IsToken(a[..]) by {
        var k :| 0 <= k < a.Length && !(IsTchar(a[k]) || a[k] == SPACE);
        assert !IsTchar(a[..][k]);
      }
      return a[..], false;
    }
    if noCanon {
      return a[..], true;
    }
    Rewrite(a);
    return a[..], true;
  }

  /** CanonicalMIMEHeaderKey: the early exits never change the answer. */
  method CanonicalKey(s: bytes) returns (r: bytes)
    ensures r == Canonical(s)
  {
    var upper := true;
    for i := 0 to |s|
      invariant IsToken(s[..i])
      invariant upper <==> i == 0 || s[i - 1] == DASH
      invariant s[..i] == Cased(s)[..i]
    {
      var c := s[i];
      if !ValidHeaderFieldByte(c) {
        assert !IsTchar(s[i]);
        return s;
      }
      if upper && IsLower(c) {
        r := SlowKey(s);
        return;
      }
      if !upper && IsUpper(c) {
        r := SlowKey(s);
        return;
      }
      KeepsCase(s, i, upper);
      upper := c == DASH;
    }
    assert s == s[..|s|] == Cased(s)[..|s|] == Cased(s);
    return s;
  }

  lemma KeepsCase(s: bytes, i: nat, upper: bool)
    requires i < |s| && IsToken(s[..i]) && IsTchar(s[i]) && s[..i] == Cased(s)[..i]
    requires upper <==> i == 0 || s[i - 1] == DASH
    requires !(upper && IsLower(s[i])) && !(!upper && IsUpper(s[i]))
    ensures IsToken(s[..i + 1]) && s[..i + 1] == Cased(s)[..i + 1]
  {
    assert Cased(s)[i] == s[i];
    assert s[..i + 1] == s[..i] + [s[i]] && Cased(s)[..i + 1] == Cased(s)[..i] + [s[i]];
  }

  method SlowKey(s: bytes) returns (r: bytes)
    ensures r == Canonical(s)
  {
    var a := new byte[|s|](k requires 0 <= k < |s| => s[k]);
    assert a[..] == s;
    var ok;
    r, ok := CanonicalInPlace(a);
  }

  // ---- the header map ---------------------------------------------------

  type Headers = map<bytes, seq<bytes>>

  /** All values under a key, whatever its letter case. */
  function ValuesOf(h: Headers, key: bytes): seq<bytes> {
    if Canonical(key) in h then h[Canonical(key)] else []
  }

  class MIMEHeader {
    var entries: Headers

    constructor ()
      ensures entries == map[]
    {
      entries := map[];
    }

    method Add(key: bytes, value: bytes)
      modifies this
      ensures ValuesOf(entries, key) == ValuesOf(old(entries), key) + [value]
      ensures forall k :: k != Canonical(key) ==> (k in entries <==> k in old(entries))
      ensures forall k :: k != Canonical(key) && k in entries ==> entries[k] == old(entries)[k]
    {
      var k := CanonicalKey(key);
      entries := entries[k := (if k in entries then entries[k] else []) + [value]];
    }

    method Set(key: bytes, value: bytes)
      modifies this
      ensures entries == old(entries)[Canonical(key) := [value]]
    {
      var k := CanonicalKey(key);
      entries := entries[k := [value]];
    }

    method Get(key: bytes) returns (v: bytes)
      ensures v == if ValuesOf(entries, key) == [] then [] else ValuesOf(entries, key)[0]
    {
      var vs := Values(key);
      v := if |vs| == 0 then [] else vs[0];
    }

    method Values(key: bytes) returns (vs: seq<bytes>)
      ensures vs == ValuesOf(entries, key)
    {
      var k := CanonicalKey(key);
      vs := if k in entries then entries[k] else [];
    }

    method Del(key: bytes)
      modifies this
      ensures entries == old(entries) - {Canonical(key)}
    {
      var k := CanonicalKey(key);
      entries := entries - {k};
    }
  }

  /** Two spellings of a token reach the same values in every header map, and only two such
      spellings are tied together by a write. */
  lemma CaseInsensitiveAccess(h: Headers, key: bytes, other: bytes, value: bytes)
    requires IsToken(key) && IsToken(other)
    ensures Lowered(key) == Lowered(other) ==> ValuesOf(h, key) == ValuesOf(h, other)
    ensures ValuesOf(h[Canonical(key) := [value]], other) ==
            (if Lowered(key) == Lowered(other) then [value] else ValuesOf(h, other))
    ensures ValuesOf(h - {Canonical(key)}, other) ==
            (if Lowered(key) == Lowered(other) then [] else ValuesOf(h, other))
  {
    CanonicalEqualIff(key, other);
  }
}
