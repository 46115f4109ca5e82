/** Challenge keys: lib/challenge/key.go and RequestData.NetworkPrefix. */
module ChallengeKey {
  import opened Bytes
  import opened Threshold

  /** A parsed client address; Invalid is the zero netip.Addr. */
  datatype Addr = Invalid | V4(a: bytes) | V6(b: bytes)

  ghost predicate WellFormed(addr: Addr) {
    match addr
    case Invalid => true
    case V4(a) => |a| == 4
    case V6(b) => |b| == 16
  }

  function Zeros(n: nat): bytes {
    seq(n, i => 0)
  }

  const MAPPED: bytes := [0, 0, 0, 0, 0, 0, 0, 0, 0, 0, 255, 255]

  /** netip.Addr.Unmap: ::ffff:a.b.c.d is the IPv4 address a.b.c.d. */
  function Unmap(addr: Addr): Addr {
    match addr
    case V6(b) => if |b| == 16 && b[..12] == MAPPED then V4(b[12..]) else addr
    case _ => addr
  }

  predicate IsIPv4(addr: Addr) {
    Unmap(addr).V4?
  }

  /** A /24 for IPv4, a /64 for IPv6. */
  function NetworkPrefix(addr: Addr): Addr {
    match Unmap(addr)
    case V4(a) => V4(a[..Min(3, |a|)] + [0])
    case V6(b) => V6(b[..Min(8, |b|)] + Zeros(8))
    case Invalid => Invalid
  }

  function As16(addr: Addr): bytes {
    match addr
    case V4(a) => MAPPED + a
    case V6(b) => b
    case Invalid => Zeros(16)
  }

  /** What a key is computed from; values[i] are the request's values of header keyHeaders[i]. */
  datatype KeyInput = KeyInput(name: bytes, addr: Addr, values: seq<seq<bytes>>, expiry: int)

  ghost predicate ValidInput(x: KeyInput, keyHeaders: seq<bytes>) {
    WellFormed(x.addr) && |x.values| == |keyHeaders| && IsInt64(x.expiry)
  }

  predicate IsInt64(s: int) {
    0 <= s + Pow2(63) < Pow2(64)
  }

  /** The 64-bit two's complement of an expiry second. */
  function ToUint64(s: int): nat {
    s % Pow2(64)
  }

  const PREFIX: bytes := [99, 104, 97, 108, 108, 101, 110, 103, 101, 0] // "challenge" and a NUL

  function ValueBlock(vs: seq<bytes>): bytes {
    if vs == [] then [] else vs[0] + [1] + ValueBlock(vs[1..])
  }

  function HeaderBlock(ks: seq<bytes>, values: seq<seq<bytes>>): bytes
    requires |ks| == |values|
  {
    if ks == [] then [] else ks[0] + [0] + ValueBlock(values[0]) + [0] + HeaderBlock(ks[1..], values[1..])
  }

  /** Everything fed to the hasher, in order. */
  function Preimage(x: KeyInput, ks: seq<bytes>, fingerprint: bytes): bytes
    requires |x.values| == |ks|
  {
    PREFIX + x.name + [0] + As16(NetworkPrefix(x.addr)) + [0] + HeaderBlock(ks, x.values)
      + [0] + LittleEndianBytes(ToUint64(x.expiry), 8) + [0] + fingerprint + [0]
  }

  function FlagByte(addr: Addr): byte {
    if IsIPv4(addr) then 1 else 0
  }

  function KeyOf(h: Hash, x: KeyInput, ks: seq<bytes>, fingerprint: bytes): (k: Digest)
    requires |x.values| == |ks|
  {
    [FlagByte(x.addr)] + h(Preimage(x, ks, fingerprint))[1..]
  }

  // ---- the code that computes it ---------------------------------------

  /** A hasher: what was written to it so far. */
  class Hasher {
    var written: bytes

    constructor ()
      ensures written == []
    {
      written := [];
    }

    method Write(p: bytes)
      modifies this
      ensures written == old(written) + p
    {
      written := written + p;
    }
  }

  /** KeyFlags: a byte of bits. */
  type KeyFlags = bv8

  const KEY_FLAG_IPV4: KeyFlags := 1

  /** The flag byte of a key. */
  function FlagsOf(key: bytes): KeyFlags
    requires |key| == 32
  {
    key[0] as bv8
  }

  /** The key with another flag byte. */
  function WithFlags(key: bytes, flags: KeyFlags): (k: bytes)
    requires |key| == 32
    ensures |k| == 32
  {
    [flags as int] + key[1..]
  }

  method WriteFlags(key: array<byte>, flags: KeyFlags)
    requires key.Length == 32
    modifies key
    ensures key[..] == WithFlags(old(key[..]), flags)
  {
    key[0] := flags as int;
  }

  /** Key.Set, in place on byte 0. */
  method Set(key: array<byte>, flags: KeyFlags)
    requires key.Length == 32
    modifies key
    ensures key[..] == WithFlags(old(key[..]), FlagsOf(old(key[..])) | flags)
  {
    WriteFlags(key, FlagsOf(key[..]) | flags);
  }

  /** Key.Get */
  method Get(key: array<byte>, flags: KeyFlags) returns (r: KeyFlags)
    requires key.Length == 32
    ensures r == FlagsOf(key[..]) & flags
  {
    r := FlagsOf(key[..]) & flags;
  }

  /** Key.Unset */
  method Unset(key: array<byte>, flags: KeyFlags)
    requires key.Length == 32
    modifies key
    ensures key[..] == WithFlags(old(key[..]), FlagsOf(old(key[..])) & !flags)
  {
    WriteFlags(key, FlagsOf(key[..]) & !flags);
  }

  /** The flags written are the flags read, whatever they are, and the other 31 bytes stay. */
  lemma FlagsRoundTrip(key: bytes, flags: KeyFlags)
    requires |key| == 32
    ensures FlagsOf(WithFlags(key, flags)) == flags && WithFlags(key, flags)[1..] == key[1..]
  {
  }

  method GetChallengeKey(h: Hash, x: KeyInput, keyHeaders: seq<bytes>, fingerprint: bytes)
    returns (key: array<byte>)
    requires |x.values| == |keyHeaders|
    ensures fresh(key) && key.Length == 32
    ensures key[..] == KeyOf(h, x, keyHeaders, fingerprint)
  {
    var hasher := new Hasher();
    Feed(hasher, x, keyHeaders, fingerprint);
    var sum := h(hasher.written);
    key := new byte[32](i requires 0 <= i < 32 => sum[i]);
    assert key[..] == sum;
    ResetFlags(key);
    if IsIPv4(x.addr) {
      Set(key, KEY_FLAG_IPV4);
    }
  }

  method ResetFlags(key: array<byte>)
    requires key.Length == 32
    modifies key
    ensures key[..] == [0] + old(key[..])[1..]
  {
    key[0] := 0;
  }

  method Feed(hasher: Hasher, x: KeyInput, keyHeaders: seq<bytes>, fingerprint: bytes)
    requires |x.values| == |keyHeaders| && hasher.written == []
    modifies hasher
    ensures hasher.written == Preimage(x, keyHeaders, fingerprint)
  {
    hasher.Write(PREFIX);
    assert hasher.written == PREFIX;
    hasher.Write(x.name);
    hasher.Write([0]);
    var keyAddr := As16(NetworkPrefix(x.addr));
    hasher.Write(keyAddr);
    hasher.Write([0]);
    WriteHeaders(hasher, keyHeaders, x.values);
    hasher.Write([0]);
    hasher.Write(LittleEndianBytes(ToUint64(x.expiry), 8));
    hasher.Write([0]);
    hasher.Write(fingerprint);
    hasher.Write([0]);
  }

  method WriteHeaders(hasher: Hasher, keyHeaders: seq<bytes>, values: seq<seq<bytes>>)
    requires |values| == |keyHeaders|
    modifies hasher
    ensures hasher.written == old(hasher.written) + HeaderBlock(keyHeaders, values)
  {
    assert keyHeaders[0..] == keyHeaders && values[0..] == values;
    for i := 0 to |keyHeaders|
      invariant hasher.written + HeaderBlock(keyHeaders[i..], values[i..]) == old(hasher.written) + HeaderBlock(keyHeaders, values)
    {
      assert keyHeaders[i..][1..] == keyHeaders[i + 1..] && values[i..][1..] == values[i + 1..];
      ghost var before, rest := hasher.written, HeaderBlock(keyHeaders[i + 1..], values[i + 1..]);
      WriteHeader(hasher, keyHeaders[i], values[i]);
      Associate(before, keyHeaders[i] + [0] + ValueBlock(values[i]) + [0], rest);
    }
  }

  /** One header: its name, its values, and their terminators. */
  method WriteHeader(hasher: Hasher, k: bytes, values: seq<bytes>)
    modifies hasher
    ensures hasher.written == old(hasher.written) + (k + [0] + ValueBlock(values) + [0])
  {
    hasher.Write(k);
    hasher.Write([0]);
    WriteValues(hasher, values);
    hasher.Write([0]);
  }

  method WriteValues(hasher: Hasher, values: seq<bytes>)
    modifies hasher
    ensures hasher.written == old(hasher.written) + ValueBlock(values)
  {
    ghost var start := hasher.written;
    assert values[0..] == values;
    for i := 0 to |values|
      invariant hasher.written + ValueBlock(values[i..]) == start + ValueBlock(values)
    {
      ghost var before := hasher.written;
      hasher.Write(values[i]);
      hasher.Write([1]);
      assert values[i..][1..] == values[i + 1..];
      assert hasher.written + ValueBlock(values[i + 1..]) == before + ValueBlock(values[i..]);
    }
  }

  // ---- injectivity ------------------------------------------------------

  ghost predicate Free(s: bytes, c: byte) {
    c !in s
  }

  /** Names free of NUL, header values free of bytes 0 and 1: what net/http and the policy allow. */
  ghost predicate CleanInput(x: KeyInput) {
    && Free(x.name, 0)
    && forall i, j :: 0 <= i < |x.values| && 0 <= j < |x.values[i]| ==>
         Free(x.values[i][j], 0) && Free(x.values[i][j], 1)
  }

  /** A terminator that does not occur in the text tells where the text ends. */
  lemma {:induction false} TerminatorSplits(a: bytes, b: bytes, c: byte, r: bytes, s: bytes)
    requires Free(a, c) && Free(b, c) && a + [c] + r == b + [c] + s
    ensures a == b && r == s
  {
    var x, y := a + [c] + r, b + [c] + s;
    assert x[0] == (if a == [] then c else a[0]) && y[0] == (if b == [] then c else b[0]);
    assert (a != [] ==> a[0] in a) && (b != [] ==> b[0] in b);
    if a != [] && b != [] {
      assert x[1..] == a[1..] + [c] + r && y[1..] == b[1..] + [c] + s;
      TerminatorSplits(a[1..], b[1..], c, r, s);
      assert a == [a[0]] + a[1..] && b == [b[0]] + b[1..];
    } else {
      assert a == [] ==> x[1..] == r;
      assert b == [] ==> y[1..] == s;
    }
  }

  lemma SameLengthSplits(a: bytes, b: bytes, r: bytes, s: bytes)
    requires |a| == |b| && a + r == b + s
    ensures a == b && r == s
  {
    assert a == (a + r)[..|a|] && b == (b + s)[..|b|];
    assert r == (a + r)[|a|..] && s == (b + s)[|b|..];
  }

  lemma {:induction false} ValueBlockInjective(u: seq<bytes>, v: seq<bytes>, r: bytes, s: bytes)
    requires forall j :: 0 <= j < |u| ==> Free(u[j], 0) && Free(u[j], 1)
    requires forall j :: 0 <= j < |v| ==> Free(v[j], 0) && Free(v[j], 1)
    requires ValueBlock(u) + [0] + r == ValueBlock(v) + [0] + s
    ensures u == v && r == s
    decreases |u|
  {
    var x, y := ValueBlock(u) + [0] + r, ValueBlock(v) + [0] + s;
    BlockStart(u, r);
    BlockStart(v, s);
    if u != [] && v != [] {
      var p, q := ValueBlock(u[1..]) + [0] + r, ValueBlock(v[1..]) + [0] + s;
      assert x == u[0] + [1] + p && y == v[0] + [1] + q;
      TerminatorSplits(u[0], v[0], 1, p, q);
      ValueBlockInjective(u[1..], v[1..], r, s);
      assert u == [u[0]] + u[1..] && v == [v[0]] + v[1..];
    } else {
      assert u == [] ==> r == x[1..];
      assert v == [] ==> s == y[1..];
    }
  }

  /** The first byte tells an empty list of values from a non-empty one. */
  lemma BlockStart(v: seq<bytes>, s: bytes)
    requires v != [] ==> Free(v[0], 0)
    ensures (ValueBlock(v) + [0] + s)[0] == 0 <==> v == []
  {
    if v != [] {
      assert ValueBlock(v)[0] == if v[0] == [] then 1 else v[0][0];
      assert v[0] != [] ==> v[0][0] in v[0];
    }
  }

  /** Header names as the policy lists them: not empty and free of NUL. */
  ghost predicate CleanNames(ks: seq<bytes>) {
    forall i :: 0 <= i < |ks| ==> ks[i] != [] && Free(ks[i], 0)
  }

  ghost predicate CleanValues(u: seq<seq<bytes>>) {
    forall i, j :: 0 <= i < |u| && 0 <= j < |u[i]| ==> Free(u[i][j], 0) && Free(u[i][j], 1)
  }

  lemma {:induction false} HeaderBlockInjective(ks: seq<bytes>, u: seq<seq<bytes>>, ls: seq<bytes>, v: seq<seq<bytes>>, r: bytes, s: bytes)
    requires |u| == |ks| && |v| == |ls| && CleanNames(ks) && CleanNames(ls) && CleanValues(u) && CleanValues(v)
    requires HeaderBlock(ks, u) + ([0] + r) == HeaderBlock(ls, v) + ([0] + s)
    ensures ks == ls && u == v && r == s
    decreases |ks|
  {
    NamesStart(ks, u, r);
    NamesStart(ls, v, s);
    if ks != [] && ls != [] {
      HeaderBlockHead(ks, u, [0] + r);
      HeaderBlockHead(ls, v, [0] + s);
      var p, q := HeaderBlock(ks[1..], u[1..]) + ([0] + r), HeaderBlock(ls[1..], v[1..]) + ([0] + s);
      TerminatorSplits(ks[0], ls[0], 0, ValueBlock(u[0]) + [0] + p, ValueBlock(v[0]) + [0] + q);
      ValueBlockInjective(u[0], v[0], p, q);
      HeaderBlockInjective(ks[1..], u[1..], ls[1..], v[1..], r, s);
      assert ks == [ks[0]] + ks[1..] && ls == [ls[0]] + ls[1..];
      assert u == [u[0]] + u[1..] && v == [v[0]] + v[1..];
    } else if ks == [] && ls == [] {
      assert [] + ([0] + r) == [0] + r && [] + ([0] + s) == [0] + s;
      SameLengthSplits([0], [0], r, s);
    }
  }

  /** A NUL where a name would start says that there are no more headers. */
  lemma NamesStart(ks: seq<bytes>, u: seq<seq<bytes>>, r: bytes)
    requires |u| == |ks| && CleanNames(ks)
    ensures (HeaderBlock(ks, u) + ([0] + r))[0] == 0 <==> ks == []
  {
    if ks != [] {
      HeaderBlockHead(ks, u, [0] + r);
      assert ks[0][0] in ks[0];
    }
  }

  lemma HeaderBlockHead(ks: seq<bytes>, u: seq<seq<bytes>>, r: bytes)
    requires |u| == |ks| && ks != []
    ensures HeaderBlock(ks, u) + r == (ks[0] + [0]) + (ValueBlock(u[0]) + [0] + (HeaderBlock(ks[1..], u[1..]) + r))
  {
    var a, b := ks[0] + [0], ValueBlock(u[0]) + [0];
    var c := HeaderBlock(ks[1..], u[1..]);
    Associate(a, ValueBlock(u[0]), [0]);
    Associate(a + b, c, r);
    Associate(a, b, c + r);
  }

  lemma TwosComplementInjective(s: int, t: int)
    requires IsInt64(s) && IsInt64(t) && ToUint64(s) == ToUint64(t)
    ensures s == t
  {
    NearAndCongruent(s, t, Pow2(64));
  }

  lemma NearAndCongruent(s: int, t: int, m: int)
    requires m > 0 && s % m == t % m && -m < s - t < m
    ensures s == t
  {
    assert s == (s / m) * m + s % m && t == (t / m) * m + t % m;
    if s >= t {
      QuotientUnique(s / m - t / m, 0, 0, s - t, m);
    } else {
      QuotientUnique(t / m - s / m, 0, 0, t - s, m);
    }
  }

  lemma As16Length(addr: Addr)
    requires WellFormed(addr)
    ensures |As16(NetworkPrefix(addr))| == 16
  {
  }

  /** The bytes fed to the hash determine everything a key is meant to bind: the name, the network
      prefix, which headers are read and their values, the expiry, and the server's own key. */
  lemma PreimageInjective(x: KeyInput, ks: seq<bytes>, f: bytes, y: KeyInput, ls: seq<bytes>, g: bytes)
    requires ValidInput(x, ks) && ValidInput(y, ls) && CleanInput(x) && CleanInput(y) && CleanNames(ks) && CleanNames(ls)
    requires Preimage(x, ks, f) == Preimage(y, ls, g)
    ensures x.name == y.name && ks == ls && x.values == y.values && x.expiry == y.expiry && f == g
    ensures As16(NetworkPrefix(x.addr)) == As16(NetworkPrefix(y.addr))
  {
    As16Length(x.addr);
    As16Length(y.addr);
    PreimageParts(x, ks, f);
    PreimageParts(y, ls, g);
    var (rx, hx, tx) := Parts(x, ks, f);
    var (ry, hy, ty) := Parts(y, ls, g);
    SameLengthSplits(PREFIX, PREFIX, x.name + [0] + rx, y.name + [0] + ry);
    TerminatorSplits(x.name, y.name, 0, rx, ry);
    SameLengthSplits(As16(NetworkPrefix(x.addr)) + [0], As16(NetworkPrefix(y.addr)) + [0], hx, hy);
    SameLengthSplits(As16(NetworkPrefix(x.addr)), As16(NetworkPrefix(y.addr)), [0], [0]);
    HeaderBlockInjective(ks, x.values, ls, y.values, tx, ty);
    TailInjective(x.expiry, f, y.expiry, g);
  }

  /** The expiry and the server's fingerprint, behind the headers. */
  function Tail(expiry: int, fingerprint: bytes): bytes {
    LittleEndianBytes(ToUint64(expiry), 8) + ([0] + fingerprint + [0])
  }

  lemma TailInjective(e: int, f: bytes, o: int, g: bytes)
    requires IsInt64(e) && IsInt64(o) && Tail(e, f) == Tail(o, g)
    ensures e == o && f == g
  {
    SameLengthSplits(LittleEndianBytes(ToUint64(e), 8), LittleEndianBytes(ToUint64(o), 8), [0] + f + [0], [0] + g + [0]);
    LittleEndianRoundTrip(ToUint64(e), 8);
    LittleEndianRoundTrip(ToUint64(o), 8);
    TwosComplementInjective(e, o);
    assert ([0] + f + [0])[1..|f| + 1] == f && ([0] + g + [0])[1..|g| + 1] == g;
  }

  /** The rest after the name, after the address, and after the headers. */
  function Parts(x: KeyInput, ks: seq<bytes>, fingerprint: bytes): (bytes, bytes, bytes)
    requires |x.values| == |ks|
  {
    var t := Tail(x.expiry, fingerprint);
    var h := HeaderBlock(ks, x.values) + ([0] + t);
    (As16(NetworkPrefix(x.addr)) + [0] + h, h, t)
  }

  lemma PreimageParts(x: KeyInput, ks: seq<bytes>, fingerprint: bytes)
    requires |x.values| == |ks|
    ensures Preimage(x, ks, fingerprint) == PREFIX + (x.name + [0] + Parts(x, ks, fingerprint).0)
  {
    var a, e := As16(NetworkPrefix(x.addr)), LittleEndianBytes(ToUint64(x.expiry), 8);
    var b := HeaderBlock(ks, x.values);
    var end := [0] + fingerprint + [0];
    var t := [0] + Tail(x.expiry, fingerprint);
    var p := PREFIX + x.name + [0] + a + [0];
    assert p + b + [0] + e + [0] + fingerprint + [0] == p + b + [0] + e + end;
    Associate(p + b + [0], e, end);
    Associate(p + b, [0], e + end);
    Associate(p, b, t);
    var q := PREFIX + x.name + [0];
    assert p == q + (a + [0]);
    Associate(q, a + [0], b + t);
    assert q == PREFIX + (x.name + [0]);
    Associate(PREFIX, x.name + [0], a + [0] + (b + t));
  }

  /** The prefix bytes determine the prefix, except that an unparsable address looks like ::/64. */
  lemma PrefixBytesInjective(a: Addr, b: Addr)
    requires WellFormed(a) && WellFormed(b)
    ensures As16(NetworkPrefix(a)) == As16(NetworkPrefix(b)) <==>
            NetworkPrefix(a) == NetworkPrefix(b)
            || (NetworkPrefix(a) in {Invalid, V6(Zeros(16))} && NetworkPrefix(b) in {Invalid, V6(Zeros(16))})
  {
    var p, q := NetworkPrefix(a), NetworkPrefix(b);
    if p.V4? {
      assert As16(p)[10] == 255;
      assert As16(p)[12..] == p.a;
    } else if p.V6? {
      assert As16(p)[10] == 0;
    }
    if q.V4? {
      assert As16(q)[10] == 255;
      assert As16(q)[12..] == q.a;
    } else if q.V6? {
      assert As16(q)[10] == 0;
    }
  }

  // ---- which addresses share a key --------------------------------------

  /** The four bytes of an IPv4 address, written as such or as ::ffff:a.b.c.d. */
  ghost function Quad(addr: Addr): Option<bytes> {
    match addr
    case Invalid => None
    case V4(a) => Some(a)
    case V6(b) =>
      if |b| == 16 && (forall i :: 0 <= i < 10 ==> b[i] == 0) && b[10] == b[11] == 255 then Some(b[12..]) else None
  }

  /** The upper half of an address that is not an IPv4 one; an unparsable address counts as ::. */
  ghost function Upper(addr: Addr): bytes
    requires WellFormed(addr)
  {
    if addr.V6? then addr.b[..8] else Zeros(8)
  }

  /** IPv4 addresses share a network when their first three bytes agree, others when their first eight do. */
  ghost predicate SameNetwork(a: Addr, b: Addr)
    requires WellFormed(a) && WellFormed(b)
  {
    if Quad(a).Some? || Quad(b).Some?
    then Quad(a).Some? && Quad(b).Some? && Quad(a).value[..3] == Quad(b).value[..3]
    else Upper(a) == Upper(b)
  }

  lemma PrefixOf(addr: Addr)
    requires WellFormed(addr)
    ensures Quad(addr).Some? <==> IsIPv4(addr)
    ensures Quad(addr).Some? ==>
            |Quad(addr).value| == 4 && As16(NetworkPrefix(addr)) == MAPPED + (Quad(addr).value[..3] + [0])
    ensures Quad(addr).None? ==> As16(NetworkPrefix(addr)) == Upper(addr) + Zeros(8)
  {
    if addr.V6? {
      assert addr.b[..12] == MAPPED <==> (forall i :: 0 <= i < 10 ==> addr.b[i] == 0) && addr.b[10] == addr.b[11] == 255 by {
        assert forall i :: 0 <= i < 12 ==> addr.b[..12][i] == addr.b[i];
        assert forall i :: 0 <= i < 10 ==> MAPPED[i] == 0;
        if (forall i :: 0 <= i < 10 ==> addr.b[i] == 0) && addr.b[10] == addr.b[11] == 255 {
          assert forall i :: 0 <= i < 12 ==> addr.b[..12][i] == MAPPED[i];
        }
      }
    }
    assert Zeros(16) == Zeros(8) + Zeros(8);
  }

  /** Two clients have the same prefix bytes exactly when they are on the same network. */
  lemma PrefixBytesIff(a: Addr, b: Addr)
    requires WellFormed(a) && WellFormed(b)
    ensures As16(NetworkPrefix(a)) == As16(NetworkPrefix(b)) <==> SameNetwork(a, b)
  {
    PrefixOf(a);
    PrefixOf(b);
    var p, q := As16(NetworkPrefix(a)), As16(NetworkPrefix(b));
    if Quad(a).Some? && Quad(b).Some? {
      if p == q {
        SameLengthSplits(MAPPED, MAPPED, Quad(a).value[..3] + [0], Quad(b).value[..3] + [0]);
        SameLengthSplits(Quad(a).value[..3], Quad(b).value[..3], [0], [0]);
      }
    } else if Quad(a).None? && Quad(b).None? {
      if p == q {
        SameLengthSplits(Upper(a), Upper(b), Zeros(8), Zeros(8));
      }
    } else {
      assert Quad(a).Some? ==> p[10] == 255;
      assert Quad(b).Some? ==> q[10] == 255;
      assert Quad(a).None? ==> p[10] == 0;
      assert Quad(b).None? ==> q[10] == 0;
    }
  }

  /** Keys are equal exactly for the same name, network, headers with their values, expiry and server,
      as long as the hash does not collide on these two inputs. */
  lemma KeysEqualOnlyIf(h: Hash, x: KeyInput, ks: seq<bytes>, f: bytes, y: KeyInput, ls: seq<bytes>, g: bytes)
    requires ValidInput(x, ks) && ValidInput(y, ls) && CleanInput(x) && CleanInput(y) && CleanNames(ks) && CleanNames(ls)
    requires h(Preimage(x, ks, f))[1..] == h(Preimage(y, ls, g))[1..] ==> Preimage(x, ks, f) == Preimage(y, ls, g)
    ensures KeyOf(h, x, ks, f) == KeyOf(h, y, ls, g) <==>
            x.name == y.name && SameNetwork(x.addr, y.addr) && ks == ls && x.values == y.values
            && x.expiry == y.expiry && f == g
  {
    var k, l := KeyOf(h, x, ks, f), KeyOf(h, y, ls, g);
    PrefixBytesIff(x.addr, y.addr);
    if k == l {
      assert k[1..] == h(Preimage(x, ks, f))[1..];
      assert l[1..] == h(Preimage(y, ls, g))[1..];
      PreimageInjective(x, ks, f, y, ls, g);
    }
    if SameNetwork(x.addr, y.addr) {
      PrefixOf(x.addr);
      PrefixOf(y.addr);
    }
  }

  /** Keys of IPv4 and IPv6 requests differ in byte 0, whatever the hash does. */
  lemma FamiliesNeverShareKeys(h: Hash, x: KeyInput, y: KeyInput, ks: seq<bytes>, ls: seq<bytes>, fingerprint: bytes)
    requires |x.values| == |ks| && |y.values| == |ls|
    ensures KeyOf(h, x, ks, fingerprint)[0] == KeyOf(h, y, ls, fingerprint)[0] <==> (IsIPv4(x.addr) <==> IsIPv4(y.addr))
  {
  }

  /** Without the restriction on values the bytes are ambiguous: one value with byte 1 inside reads
      like two values. */
  lemma SeparatorInValueCollides(x: KeyInput, y: KeyInput, k: bytes, fingerprint: bytes, v: bytes, w: bytes)
    requires x.values == [[v + [1] + w]] && y == x.(values := [[v, w]])
    ensures x != y && Preimage(x, [k], fingerprint) == Preimage(y, [k], fingerprint)
  {
    var one: seq<bytes> := [v + [1] + w];
    var two: seq<bytes> := [v, w];
    assert |one[1..]| == 0 && two[1..] == [w] && |two[1..][1..]| == 0;
    assert ValueBlock(two[1..]) == w + [1] + [];
    assert ValueBlock(one) == v + [1] + w + [1] + [];
    assert ValueBlock(two) == ValueBlock(one);
    assert HeaderBlock([k], x.values) == HeaderBlock([k], y.values);
  }
}
