/** TLS fingerprints: utils/fingerprint.go. The texts that are hashed are modelled exactly; MD5 and
    SHA-256 are parameters. */
module Fingerprint {
  import opened Strings
  import opened Decimals
  import Hex
  import opened Bytes

  type u16 = n: int | 0 <= n < 65536
  type u8 = n: int | 0 <= n < 256

  datatype ClientHello = ClientHello(
    versions: seq<u16>,
    ciphers: seq<u16>,
    extensions: seq<u16>,
    curves: seq<u16>,
    points: seq<u8>,
    schemes: seq<u16>,
    serverName: string,
    protos: seq<string>)

  const EXTENSION_SERVER_NAME: u16 := 0
  const EXTENSION_ALPN: u16 := 16
  const EXTENSION_SUPPORTED_VERSIONS: u16 := 43

  const VERSION_SSL30: u16 := 0x0300
  const VERSION_TLS10: u16 := 0x0301
  const VERSION_TLS11: u16 := 0x0302
  const VERSION_TLS12: u16 := 0x0303
  const VERSION_TLS13: u16 := 0x0304

  // ---- GREASE -----------------------------------------------------------

  /** v & 0x0F0F == 0x0A0A: the low nibble of either byte is 10. */
  predicate IsGrease(v: u16) {
    v % 16 == 10 && (v / 256) % 16 == 10
  }

  /** The sixteen values reserved by section 2 of RFC 8701. */
  predicate IsReserved(v: u16) {
    v % 16 == 10 && v / 256 == v % 256
  }

  /** The mask matches every reserved value, and beyond them exactly those whose high nibbles differ. */
  lemma MaskAgainstReserved(v: u16)
    ensures IsReserved(v) ==> IsGrease(v)
    ensures IsGrease(v) && v / 4096 == (v / 16) % 16 <==> IsReserved(v)
  {
    HighByte(v);
    LowByte(v);
  }

  /** Such a value beyond the reserved ones: 0x0A1A. */
  lemma MaskMatchesMore()
    ensures IsGrease(0x0A1A) && !IsReserved(0x0A1A)
  {
  }

  lemma HighByte(v: u16)
    ensures v / 256 == 16 * (v / 4096) + v / 256 % 16
  {
  }

  lemma LowByte(v: u16)
    ensures v % 256 == 16 * (v / 16 % 16) + v % 16
  {
  }

  function NoGrease(vs: seq<u16>): seq<u16> {
    if vs == [] then []
    else (if IsGrease(vs[0]) then [] else [vs[0]]) + NoGrease(vs[1..])
  }

  lemma {:induction false} NoGreaseAppend(a: seq<u16>, b: seq<u16>)
    ensures NoGrease(a + b) == NoGrease(a) + NoGrease(b)
  {
    if a == [] {
      assert a + b == b;
    } else {
      assert (a + b)[1..] == a[1..] + b;
      NoGreaseAppend(a[1..], b);
    }
  }

  /** A masked value may be put anywhere into a list without changing what is kept of it. */
  lemma GreaseInsertion(a: seq<u16>, g: u16, b: seq<u16>)
    requires IsGrease(g)
    ensures NoGrease(a + [g] + b) == NoGrease(a + b)
  {
    NoGreaseAppend(a + [g], b);
    NoGreaseAppend(a, [g]);
    NoGreaseAppend(a, b);
    assert NoGrease([g]) == [];
  }

  lemma {:induction false} NoGreaseMembers(vs: seq<u16>, v: u16)
    ensures v in NoGrease(vs) <==> v in vs && !IsGrease(v)
  {
    if vs != [] {
      NoGreaseMembers(vs[1..], v);
      assert v in vs <==> v == vs[0] || v in vs[1..];
    }
  }

  // ---- sorting ----------------------------------------------------------

  ghost predicate Ascending(s: seq<u16>) {
    forall i, j :: 0 <= i < j < |s| ==> s[i] <= s[j]
  }

  function Insert(s: seq<u16>, v: u16): (r: seq<u16>)
    ensures multiset(r) == multiset(s) + multiset{v}
  {
    if s == [] || v <= s[0] then [v] + s
    else
      assert s == [s[0]] + s[1..];
      [s[0]] + Insert(s[1..], v)
  }

  lemma {:induction false} InsertMembers(s: seq<u16>, v: u16, x: u16)
    ensures x in Insert(s, v) <==> x == v || x in s
  {
    assert x in Insert(s, v) <==> x in multiset(Insert(s, v));
    assert x in s <==> x in multiset(s);
  }

  lemma {:induction false} InsertAscending(s: seq<u16>, v: u16)
    requires Ascending(s)
    ensures Ascending(Insert(s, v))
  {
    if s != [] && v > s[0] {
      InsertAscending(s[1..], v);
      var r := Insert(s[1..], v);
      forall j | 0 <= j < |r| ensures s[0] <= r[j] {
        InsertMembers(s[1..], v, r[j]);
      }
    }
  }

  /** slices.Sort */
  function Sorted(s: seq<u16>): (r: seq<u16>)
    ensures Ascending(r) && multiset(r) == multiset(s)
  {
    if s == [] then []
    else
      assert s == [s[0]] + s[1..];
      InsertAscending(Sorted(s[1..]), s[0]);
      Insert(Sorted(s[1..]), s[0])
  }

  lemma {:induction false} AscendingUnique(a: seq<u16>, b: seq<u16>)
    requires Ascending(a) && Ascending(b) && multiset(a) == multiset(b)
    ensures a == b
  {
    SameCount(a, b);
    if a != [] {
      LeastFirst(a, b);
      LeastFirst(b, a);
      assert a == [a[0]] + a[1..] && b == [b[0]] + b[1..];
      assert multiset(a) == multiset{a[0]} + multiset(a[1..]);
      assert multiset(b) == multiset{b[0]} + multiset(b[1..]);
      assert multiset(a[1..]) == multiset(a) - multiset{a[0]} == multiset(b[1..]);
      AscendingUnique(a[1..], b[1..]);
    }
  }

  lemma LeastFirst(a: seq<u16>, b: seq<u16>)
    requires a != [] && b != [] && Ascending(a) && multiset(a) == multiset(b)
    ensures a[0] <= b[0]
  {
    assert b[0] in multiset(b);
    assert b[0] in a;
  }

  lemma SameCount(a: seq<u16>, b: seq<u16>)
    requires multiset(a) == multiset(b)
    ensures |a| == |b|
  {
    assert |multiset(a)| == |a| && |multiset(b)| == |b|;
  }

  /** Sorting forgets the order and nothing else. */
  lemma SortedEqualIff(a: seq<u16>, b: seq<u16>)
    ensures Sorted(a) == Sorted(b) <==> multiset(a) == multiset(b)
  {
    if multiset(a) == multiset(b) {
      AscendingUnique(Sorted(a), Sorted(b));
    }
  }

  lemma {:induction false} NoGreaseMultiset(s: seq<u16>, v: u16)
    ensures multiset(NoGrease(s))[v] == if IsGrease(v) then 0 else multiset(s)[v]
  {
    if s != [] {
      NoGreaseMultiset(s[1..], v);
      assert s == [s[0]] + s[1..];
      assert multiset(NoGrease(s)) == (if IsGrease(s[0]) then multiset{} else multiset{s[0]}) + multiset(NoGrease(s[1..]));
    }
  }

  lemma {:induction false} NoGreaseAscending(s: seq<u16>)
    requires Ascending(s)
    ensures Ascending(NoGrease(s))
  {
    if s != [] {
      NoGreaseAscending(s[1..]);
      var r := NoGrease(s[1..]);
      forall i | 0 <= i < |r| ensures s[0] <= r[i] {
        assert r[i] in r;
        NoGreaseMembers(s[1..], r[i]);
      }
    }
  }

  /** Filtering the sorted list, as JA3 does, is sorting the filtered one, as JA4 does. */
  lemma FilterSortCommute(s: seq<u16>)
    ensures NoGrease(Sorted(s)) == Sorted(NoGrease(s))
  {
    NoGreaseAscending(Sorted(s));
    forall v: u16 ensures multiset(NoGrease(Sorted(s)))[v] == multiset(NoGrease(s))[v] {
      NoGreaseMultiset(Sorted(s), v);
      NoGreaseMultiset(s, v);
    }
    assert multiset(NoGrease(Sorted(s))) == multiset(NoGrease(s));
    AscendingUnique(NoGrease(Sorted(s)), Sorted(NoGrease(s)));
  }

  // ---- numbers as text --------------------------------------------------

  /** Numbers joined by dashes. */
  function Joined(ns: seq<nat>): string
  {
    if ns == [] then ""
    else if |ns| == 1 then Decimal(ns[0])
    else Decimal(ns[0]) + "-" + Joined(ns[1..])
  }

  lemma {:induction false} JoinedChars(ns: seq<nat>)
    ensures forall c :: c in Joined(ns) ==> c == '-' || '0' <= c <= '9'
    ensures ns != [] ==> Joined(ns) != ""
  {
    if |ns| > 1 {
      JoinedChars(ns[1..]);
    }
  }

  lemma JoinedCut(ns: seq<nat>)
    requires ns != []
    ensures Cut(Joined(ns), '-') == (Decimal(ns[0]), if |ns| == 1 then "" else Joined(ns[1..]))
  {
    var d := Decimal(ns[0]);
    assert '-' !in d;
    if |ns| > 1 {
      CutAt(d, '-', Joined(ns[1..]));
      assert Joined(ns) == d + ['-'] + Joined(ns[1..]);
    }
  }

  lemma {:induction false} JoinedInjective(a: seq<nat>, b: seq<nat>)
    requires Joined(a) == Joined(b)
    ensures a == b
  {
    JoinedChars(a);
    JoinedChars(b);
    if a != [] && b != [] {
      JoinedCut(a);
      JoinedCut(b);
      DecimalInjective(a[0], b[0]);
      JoinedChars(a[1..]);
      JoinedChars(b[1..]);
      assert Joined(a[1..]) == Joined(b[1..]);
      JoinedInjective(a[1..], b[1..]);
      assert a == [a[0]] + a[1..] && b == [b[0]] + b[1..];
    }
  }

  // ---- JA3 --------------------------------------------------------------

  /** The highest version offered, masked values aside; 0 if there is none. */
  function MaxVersion(vs: seq<u16>): u16 {
    if vs == [] then 0
    else
      var m := MaxVersion(vs[..|vs| - 1]);
      var v := vs[|vs| - 1];
      if !IsGrease(v) && v > m then v else m
  }

  lemma {:induction false} MaxVersionIs(vs: seq<u16>)
    ensures forall v :: v in vs && !IsGrease(v) ==> v <= MaxVersion(vs)
    ensures MaxVersion(vs) == 0 || (MaxVersion(vs) in vs && !IsGrease(MaxVersion(vs)))
  {
    if vs != [] {
      MaxVersionIs(vs[..|vs| - 1]);
      assert vs == vs[..|vs| - 1] + [vs[|vs| - 1]];
    }
  }

  /** JA3's version: capped at TLS 1.2 when the client both sends supported_versions and greases. */
  function Ja3Version(h: ClientHello): u16 {
    var m := MaxVersion(h.versions);
    if EXTENSION_SUPPORTED_VERSIONS in h.extensions && (exists v :: v in h.versions && IsGrease(v)) && m > VERSION_TLS12
    then VERSION_TLS12 else m
  }

  /** The text hashed by JA3 (JA3N when the extensions are sorted first). */
  function Ja3Text(h: ClientHello, sortExtensions: bool): string {
    Decimal(Ja3Version(h)) + "," + Joined(NoGrease(h.ciphers)) + ","
      + Joined(NoGrease(if sortExtensions then Sorted(h.extensions) else h.extensions)) + ","
      + Joined(NoGrease(h.curves)) + "," + Joined(h.points)
  }

  method VersionOf(vs: seq<u16>) returns (sslVersion: u16, hasGrease: bool)
    ensures sslVersion == MaxVersion(vs)
    ensures hasGrease <==> exists v :: v in vs && IsGrease(v)
  {
    sslVersion, hasGrease := 0, false;
    for i := 0 to |vs|
      invariant sslVersion == MaxVersion(vs[..i])
      invariant hasGrease <==> exists k :: 0 <= k < i && IsGrease(vs[k])
    {
      assert vs[..i + 1][..i] == vs[..i];
      var v := vs[i];
      if !IsGrease(v) {
        if v > sslVersion {
          sslVersion := v;
        }
      } else {
        hasGrease := true;
      }
    }
    assert vs[..|vs|] == vs;
    if hasGrease {
      ghost var k :| 0 <= k < |vs| && IsGrease(vs[k]);
      assert vs[k] in vs;
    }
  }

  /** Every number followed by a dash. */
  function Dashed(ns: seq<nat>): string {
    if ns == [] then "" else Dashed(ns[..|ns| - 1]) + (Decimal(ns[|ns| - 1]) + "-")
  }

  lemma {:induction false} DashedIsJoined(ns: seq<nat>)
    ensures Dashed(ns) == if ns == [] then "" else Joined(ns) + "-"
  {
    if ns != [] {
      var init, n := ns[..|ns| - 1], ns[|ns| - 1];
      assert ns == init + [n];
      DashedIsJoined(init);
      JoinedSnoc(init, n);
      assert init != [] ==> Joined(init) + "-" + (Decimal(n) + "-") == Joined(init) + "-" + Decimal(n) + "-";
      assert init == [] ==> Dashed(init) + (Decimal(n) + "-") == Decimal(n) + "-";
    }
  }

  /** What one list keeps. */
  function KeptOf(ns: seq<u16>, filter: bool): seq<u16> {
    if filter then NoGrease(ns) else ns
  }

  lemma KeptOfSnoc(ns: seq<u16>, i: nat, filter: bool)
    requires i < |ns|
    ensures KeptOf(ns[..i + 1], filter) == KeptOf(ns[..i], filter) + (if filter && IsGrease(ns[i]) then [] else [ns[i]])
  {
    assert ns[..i + 1] == ns[..i] + [ns[i]];
    NoGreaseAppend(ns[..i], [ns[i]]);
  }

  /** One list of the text: every number and a dash, then the last dash trimmed off. */
  method AppendList(start: string, ns: seq<u16>, filter: bool) returns (buf: string)
    ensures buf == start + Joined(KeptOf(ns, filter))
  {
    buf := start;
    var n := 0;
    ghost var kept: seq<u16> := [];
    for i := 0 to |ns|
      invariant kept == KeptOf(ns[..i], filter)
      invariant n == if kept == [] then 0 else 1
      invariant buf == start + Dashed(kept)
    {
      KeptOfSnoc(ns, i, filter);
      if !filter || !IsGrease(ns[i]) {
        DashedSnoc(start, kept, ns[i]);
        buf := buf + Decimal(ns[i]);
        buf := buf + "-";
        kept := kept + [ns[i]];
        n := 1;
      }
    }
    assert ns[..|ns|] == ns;
    TrimDashed(start, kept);
    buf := buf[..|buf| - n];
  }

  lemma DashedSnoc(start: string, ns: seq<nat>, n: nat)
    ensures start + Dashed(ns) + Decimal(n) + "-" == start + Dashed(ns + [n])
  {
    assert (ns + [n])[..|ns|] == ns;
    assert start + Dashed(ns) + Decimal(n) + "-" == start + (Dashed(ns) + (Decimal(n) + "-"));
  }

  lemma TrimDashed(start: string, ns: seq<nat>)
    ensures var buf := start + Dashed(ns);
            var n := if ns == [] then 0 else 1;
            n <= |buf| && buf[..|buf| - n] == start + Joined(ns)
  {
    DashedIsJoined(ns);
    var full := start + Joined(ns);
    assert start + Dashed(ns) == full + if ns == [] then "" else "-";
  }

  lemma {:induction false} JoinedSnoc(ns: seq<nat>, n: nat)
    ensures Joined(ns + [n]) == if ns == [] then Decimal(n) else Joined(ns) + "-" + Decimal(n)
  {
    if ns == [] {
      assert ns + [n] == [n];
    } else {
      assert (ns + [n])[1..] == ns[1..] + [n];
      JoinedSnoc(ns[1..], n);
      var d := Decimal(ns[0]) + "-";
      if |ns| > 1 {
        assert d + (Joined(ns[1..]) + "-" + Decimal(n)) == d + Joined(ns[1..]) + "-" + Decimal(n);
      } else {
        assert ns[1..] + [n] == [n];
      }
    }
  }

  /** tlsFingerprintJA3 up to the final MD5. */
  method TlsFingerprintJa3Text(h: ClientHello, sortExtensions: bool) returns (buf: string)
    ensures buf == Ja3Text(h, sortExtensions)
  {
    var sslVersion, hasGrease := VersionOf(h.versions);
    if EXTENSION_SUPPORTED_VERSIONS in h.extensions && hasGrease && sslVersion > VERSION_TLS12 {
      sslVersion := VERSION_TLS12;
    }
    buf := Decimal(sslVersion) + ",";
    buf := AppendList(buf, h.ciphers, true);
    buf := buf + ",";
    var extensions := h.extensions;
    if sortExtensions {
      extensions := Sorted(extensions);
    }
    buf := AppendList(buf, extensions, true);
    buf := buf + ",";
    buf := AppendList(buf, h.curves, true);
    buf := buf + ",";
    buf := AppendList(buf, h.points, false);
  }

  lemma CommaSplits(a: string, b: string, r: string, s: string)
    requires ',' !in a && ',' !in b && a + "," + r == b + "," + s
    ensures a == b && r == s
  {
    CutAt(a, ',', r);
    CutAt(b, ',', s);
  }

  lemma Ja3Parts(v: string, a: string, b: string, c: string, d: string)
    ensures v + "," + a + "," + b + "," + c + "," + d == v + "," + (a + "," + (b + "," + (c + "," + d)))
  {
    assert v + "," + a + "," + b + "," + c + "," + d == v + "," + a + "," + b + "," + (c + "," + d);
    assert v + "," + a + "," + b + "," + (c + "," + d) == v + "," + a + "," + (b + "," + (c + "," + d));
  }

  /** The text is the same exactly when version, kept ciphers, sorted kept extensions, kept curves and
      points are: nothing of them is lost or confused. */
  lemma Ja3TextEqualIff(g: ClientHello, h: ClientHello)
    ensures Ja3Text(g, true) == Ja3Text(h, true) <==>
            && Ja3Version(g) == Ja3Version(h)
            && NoGrease(g.ciphers) == NoGrease(h.ciphers)
            && multiset(NoGrease(g.extensions)) == multiset(NoGrease(h.extensions))
            && NoGrease(g.curves) == NoGrease(h.curves)
            && g.points == h.points
  {
    FilterSortCommute(g.extensions);
    FilterSortCommute(h.extensions);
    SortedEqualIff(NoGrease(g.extensions), NoGrease(h.extensions));
    if Ja3Text(g, true) == Ja3Text(h, true) {
      Ja3TextInjective(g, h);
    }
  }

  lemma Ja3TextInjective(g: ClientHello, h: ClientHello)
    requires Ja3Text(g, true) == Ja3Text(h, true)
    ensures Ja3Version(g) == Ja3Version(h) && NoGrease(g.ciphers) == NoGrease(h.ciphers)
    ensures NoGrease(Sorted(g.extensions)) == NoGrease(Sorted(h.extensions))
    ensures NoGrease(g.curves) == NoGrease(h.curves) && g.points == h.points
  {
    var v, w := Decimal(Ja3Version(g)), Decimal(Ja3Version(h));
    var a, b := NoGrease(g.ciphers), NoGrease(h.ciphers);
    var c, d := NoGrease(Sorted(g.extensions)), NoGrease(Sorted(h.extensions));
    var e, f := NoGrease(g.curves), NoGrease(h.curves);
    var p, q := g.points, h.points;
    Ja3Parts(v, Joined(a), Joined(c), Joined(e), Joined(p));
    Ja3Parts(w, Joined(b), Joined(d), Joined(f), Joined(q));
    JoinedChars(a);
    JoinedChars(b);
    JoinedChars(c);
    JoinedChars(d);
    JoinedChars(e);
    JoinedChars(f);
    assert ',' !in v && ',' !in w;
    CommaSplits(v, w, Joined(a) + "," + (Joined(c) + "," + (Joined(e) + "," + Joined(p))),
      Joined(b) + "," + (Joined(d) + "," + (Joined(f) + "," + Joined(q))));
    CommaSplits(Joined(a), Joined(b), Joined(c) + "," + (Joined(e) + "," + Joined(p)),
      Joined(d) + "," + (Joined(f) + "," + Joined(q)));
    CommaSplits(Joined(c), Joined(d), Joined(e) + "," + Joined(p), Joined(f) + "," + Joined(q));
    CommaSplits(Joined(e), Joined(f), Joined(p), Joined(q));
    DecimalInjective(Ja3Version(g), Ja3Version(h));
    JoinedInjective(a, b);
    JoinedInjective(c, d);
    JoinedInjective(e, f);
    JoinedInjective(p, q);
  }

  // ---- reading the text back --------------------------------------------

  function Split(s: string, sep: char): (r: seq<string>)
    decreases |s|
  {
    var (head, rest) := Cut(s, sep);
    if sep !in s then [s]
    else
      assert |rest| < |s|;
      [head] + Split(rest, sep)
  }

  function NumberIn(s: string): nat {
    if AllDigits(s) then DecimalValue(s) else 0
  }

  /** The numbers of one field. */
  function NumbersIn(s: string): seq<nat> {
    if s == "" then [] else NumbersOf(Split(s, '-'))
  }

  function NumbersOf(ss: seq<string>): seq<nat> {
    if ss == [] then [] else [NumberIn(ss[0])] + NumbersOf(ss[1..])
  }

  lemma NumberInDecimal(n: nat)
    ensures NumberIn(Decimal(n)) == n
  {
    ValueOfDecimal(0, n);
    assert Zeros(0) + Decimal(n) == Decimal(n);
  }

  lemma OneNumber(n: nat)
    ensures NumbersIn(Decimal(n)) == [n]
  {
    NumberInDecimal(n);
    assert '-' !in Decimal(n);
    assert NumbersOf([Decimal(n)]) == [NumberIn(Decimal(n))] + NumbersOf([]);
  }

  lemma NextNumber(n: nat, rest: string)
    requires rest != ""
    ensures NumbersIn(Decimal(n) + ['-'] + rest) == [n] + NumbersIn(rest)
  {
    NumberInDecimal(n);
    assert '-' !in Decimal(n);
    SplitHead(Decimal(n), rest, '-');
    assert ([Decimal(n)] + Split(rest, '-'))[1..] == Split(rest, '-');
  }

  lemma {:induction false} JoinedReads(ns: seq<nat>)
    ensures NumbersIn(Joined(ns)) == ns
  {
    if |ns| == 1 {
      OneNumber(ns[0]);
      assert ns == [ns[0]];
    } else if |ns| > 1 {
      JoinedReads(ns[1..]);
      JoinedChars(ns[1..]);
      NextNumber(ns[0], Joined(ns[1..]));
      assert Joined(ns) == Decimal(ns[0]) + ['-'] + Joined(ns[1..]);
      assert ns == [ns[0]] + ns[1..];
    }
  }

  lemma SplitHead(a: string, rest: string, sep: char)
    requires sep !in a
    ensures Split(a + [sep] + rest, sep) == [a] + Split(rest, sep)
  {
    CutAt(a, sep, rest);
  }

  /** The text is five fields between commas, and they read back as the version, the kept ciphers, the kept
      extensions as sent or sorted, the kept curves and the points. */
  lemma Ja3TextReads(h: ClientHello, sortExtensions: bool)
    ensures var f := Split(Ja3Text(h, sortExtensions), ',');
            && |f| == 5
            && NumberIn(f[0]) == Ja3Version(h)
            && NumbersIn(f[1]) == NoGrease(h.ciphers)
            && NumbersIn(f[2]) == NoGrease(if sortExtensions then Sorted(h.extensions) else h.extensions)
            && NumbersIn(f[3]) == NoGrease(h.curves)
            && NumbersIn(f[4]) == h.points
  {
    var b := NoGrease(if sortExtensions then Sorted(h.extensions) else h.extensions);
    Ja3Fields(h, sortExtensions);
    NumberInDecimal(Ja3Version(h));
    JoinedReads(NoGrease(h.ciphers));
    JoinedReads(b);
    JoinedReads(NoGrease(h.curves));
    JoinedReads(h.points);
  }

  lemma Ja3Fields(h: ClientHello, sortExtensions: bool)
    ensures Split(Ja3Text(h, sortExtensions), ',') ==
            [Decimal(Ja3Version(h)), Joined(NoGrease(h.ciphers)),
             Joined(NoGrease(if sortExtensions then Sorted(h.extensions) else h.extensions)),
             Joined(NoGrease(h.curves)), Joined(h.points)]
  {
    var b := NoGrease(if sortExtensions then Sorted(h.extensions) else h.extensions);
    NoComma(NoGrease(h.ciphers));
    NoComma(b);
    NoComma(NoGrease(h.curves));
    NoComma(h.points);
    Ja3Parts(Decimal(Ja3Version(h)), Joined(NoGrease(h.ciphers)), Joined(b), Joined(NoGrease(h.curves)), Joined(h.points));
    FiveFields(Decimal(Ja3Version(h)), Joined(NoGrease(h.ciphers)), Joined(b), Joined(NoGrease(h.curves)), Joined(h.points));
  }

  lemma NoComma(ns: seq<nat>)
    ensures ',' !in Joined(ns)
  {
    JoinedChars(ns);
  }

  lemma FiveFields(v: string, a: string, b: string, c: string, d: string)
    requires ',' !in v && ',' !in a && ',' !in b && ',' !in c && ',' !in d
    ensures Split(v + "," + (a + "," + (b + "," + (c + "," + d))), ',') == [v, a, b, c, d]
  {
    SplitHead(v, a + "," + (b + "," + (c + "," + d)), ',');
    SplitHead(a, b + "," + (c + "," + d), ',');
    SplitHead(b, c + "," + d, ',');
    SplitHead(c, d, ',');
  }

  /** JA3's version is the highest one, except that it is capped at TLS 1.2 for exactly the clients that
      offer more, send supported_versions and grease their versions. */
  lemma Ja3VersionIs(h: ClientHello)
    ensures Ja3Version(h) != MaxVersion(h.versions) <==>
            && (exists v :: v in h.versions && !IsGrease(v) && v > 0x0303)
            && 43 in h.extensions && (exists v :: v in h.versions && IsGrease(v))
    ensures Ja3Version(h) != MaxVersion(h.versions) ==> Ja3Version(h) == 0x0303
  {
    MaxVersionIs(h.versions);
  }

  /** JA3N ignores the order of extensions and masked values in ciphers, extensions and curves. */
  lemma Ja3nNormalForm(g: ClientHello, h: ClientHello)
    requires g.versions == h.versions && g.points == h.points
    requires NoGrease(g.ciphers) == NoGrease(h.ciphers) && NoGrease(g.curves) == NoGrease(h.curves)
    requires multiset(NoGrease(g.extensions)) == multiset(NoGrease(h.extensions))
    ensures Ja3Text(g, true) == Ja3Text(h, true)
  {
    var v := EXTENSION_SUPPORTED_VERSIONS;
    SameKeptMembers(g.extensions, h.extensions, v);
    Ja3TextEqualIff(g, h);
  }

  lemma SameKeptMembers(a: seq<u16>, b: seq<u16>, v: u16)
    requires multiset(NoGrease(a)) == multiset(NoGrease(b)) && !IsGrease(v)
    ensures v in a <==> v in b
  {
    NoGreaseMembers(a, v);
    NoGreaseMembers(b, v);
    assert v in NoGrease(a) <==> v in multiset(NoGrease(a));
    assert v in NoGrease(b) <==> v in multiset(NoGrease(b));
  }

  // ---- JA4 --------------------------------------------------------------

  function HexChar(n: int): char
    requires 0 <= n < 16
  {
    if n < 10 then '0' + n as char else 'a' + (n - 10) as char
  }

  /** fmt.Sprintf("%04x", n) */
  function Hex4(n: u16): (s: string)
    ensures |s| == 4 && ',' !in s
  {
    [HexChar(n / 4096), HexChar(n / 256 % 16), HexChar(n / 16 % 16), HexChar(n % 16)]
  }

  function HexJoined(ns: seq<u16>): string {
    if ns == [] then "" else if |ns| == 1 then Hex4(ns[0]) else Hex4(ns[0]) + "," + HexJoined(ns[1..])
  }

  method Uint16SliceToHex(ns: seq<u16>) returns (out: string)
    ensures out == HexJoined(ns)
  {
    if |ns| == 0 {
      return "";
    }
    out := "";
    for i := 0 to |ns|
      invariant out == HexJoined(ns[..i]) + if i == 0 then "" else ","
    {
      assert ns[..i + 1] == ns[..i] + [ns[i]];
      HexJoinedSnoc(ns[..i], ns[i]);
      out := out + Hex4(ns[i]);
      out := out + ",";
    }
    assert ns[..|ns|] == ns;
    assert (HexJoined(ns) + ",")[..|out| - 1] == HexJoined(ns);
    out := out[..|out| - 1];
  }

  lemma {:induction false} HexJoinedSnoc(ns: seq<u16>, n: u16)
    ensures HexJoined(ns + [n]) == if ns == [] then Hex4(n) else HexJoined(ns) + "," + Hex4(n)
  {
    if ns == [] {
      assert ns + [n] == [n];
    } else {
      assert (ns + [n])[1..] == ns[1..] + [n];
      HexJoinedSnoc(ns[1..], n);
      var d := Hex4(ns[0]) + ",";
      if |ns| > 1 {
        assert d + (HexJoined(ns[1..]) + "," + Hex4(n)) == d + HexJoined(ns[1..]) + "," + Hex4(n);
      } else {
        assert ns[1..] + [n] == [n];
      }
    }
  }

  lemma Hex4Injective(m: u16, n: u16)
    requires Hex4(m) == Hex4(n)
    ensures m == n
  {
    var s, t := Hex4(m), Hex4(n);
    HexCharInjective(m / 4096, n / 4096, s[0], t[0]);
    HexCharInjective(m / 256 % 16, n / 256 % 16, s[1], t[1]);
    HexCharInjective(m / 16 % 16, n / 16 % 16, s[2], t[2]);
    HexCharInjective(m % 16, n % 16, s[3], t[3]);
    Nibbles(m);
    Nibbles(n);
  }

  lemma Nibbles(v: u16)
    ensures v == 4096 * (v / 4096) + 256 * (v / 256 % 16) + 16 * (v / 16 % 16) + v % 16
  {
    assert v == 16 * (v / 16) + v % 16;
    assert v / 16 == 16 * (v / 256) + v / 16 % 16;
    assert v / 256 == 16 * (v / 4096) + v / 256 % 16;
  }

  lemma HexCharInjective(a: int, b: int, c: char, d: char)
    requires 0 <= a < 16 && 0 <= b < 16 && c == HexChar(a) && d == HexChar(b) && c == d
    ensures a == b
  {
  }

  /** The list texts that JA4 hashes determine the lists. */
  lemma {:induction false} HexJoinedInjective(a: seq<u16>, b: seq<u16>)
    requires HexJoined(a) == HexJoined(b)
    ensures a == b
  {
    if a != [] && b != [] {
      assert HexJoined(a)[..4] == Hex4(a[0]) && HexJoined(b)[..4] == Hex4(b[0]);
      Hex4Injective(a[0], b[0]);
      assert |a| == 1 <==> |HexJoined(a)| == 4;
      assert |b| == 1 <==> |HexJoined(b)| == 4;
      if |a| > 1 {
        assert HexJoined(a)[5..] == HexJoined(a[1..]) && HexJoined(b)[5..] == HexJoined(b[1..]);
        HexJoinedInjective(a[1..], b[1..]);
      }
      assert a == [a[0]] + a[1..] && b == [b[0]] + b[1..];
    }
  }

  /** Two characters of version; other versions wrap below 0x0201 and print both bytes in decimal. */
  function VersionText(v: u16): string {
    if v == VERSION_SSL30 then "s3"
    else if v == VERSION_TLS10 then "10"
    else if v == VERSION_TLS11 then "11"
    else if v == VERSION_TLS12 then "12"
    else if v == VERSION_TLS13 then "13"
    else
      var w := (v - 0x0201) % 65536;
      Decimal(w / 256) + Decimal(w % 256)
  }

  /** A count in two digits, capped at 99. */
  function CountText(n: nat): (s: string)
  {
    if n < 10 then "0" + Decimal(n) else if n > 99 then "99" else Decimal(n)
  }

  lemma CountTextTwoChars(n: nat)
    ensures |CountText(n)| == 2
  {
    if 10 <= n <= 99 {
      assert Decimal(n) == Decimal(n / 10) + [DigitChar(n % 10)];
      assert Decimal(n / 10) == [DigitChar(n / 10)];
    }
  }

  function ProtoText(protos: seq<string>): string {
    if |protos| > 0 && |protos[0]| > 1 then [protos[0][0], protos[0][|protos[0]| - 1]] else "00"
  }

  /** The extensions that are listed: neither masked, nor ALPN, nor server_name. */
  function Listed(es: seq<u16>): seq<u16> {
    if es == [] then []
    else (if IsGrease(es[0]) || es[0] == EXTENSION_ALPN || es[0] == EXTENSION_SERVER_NAME then [] else [es[0]]) + Listed(es[1..])
  }

  /** The readable part before it is cut to ten bytes. */
  function Ja4Head(h: ClientHello): string {
    "t" + VersionText(MaxVersion(h.versions))
      + (if EXTENSION_SERVER_NAME in h.extensions && h.serverName != "" then "d" else "i")
      + CountText(|NoGrease(h.ciphers)|) + CountText(|NoGrease(h.extensions)|) + ProtoText(h.protos)
  }

  function Ja4CipherText(h: ClientHello): string {
    HexJoined(Sorted(NoGrease(h.ciphers)))
  }

  function Ja4ExtensionText(h: ClientHello): string {
    HexJoined(Sorted(Listed(h.extensions)))
      + if NoGrease(h.schemes) != [] then "_" + HexJoined(NoGrease(h.schemes)) else ""
  }

  type Hash6 = string -> seq<u8>

  /** ja4SHA256: six zero bytes for an empty text. */
  function Ja4Hash(hash: Hash6, text: string): seq<u8> {
    if text == "" then [0, 0, 0, 0, 0, 0] else hash(text)
  }

  datatype Ja4 = Ja4(a: string, b: seq<u8>, c: seq<u8>)

  function Ja4Of(hash: Hash6, h: ClientHello): Ja4 {
    var head := Ja4Head(h);
    Ja4(if |head| < 10 then head else head[..10], Ja4Hash(hash, Ja4CipherText(h)), Ja4Hash(hash, Ja4ExtensionText(h)))
  }

  method Filtered(vs: seq<u16>) returns (kept: seq<u16>)
    ensures kept == NoGrease(vs)
  {
    kept := [];
    for i := 0 to |vs|
      invariant kept == NoGrease(vs[..i])
    {
      assert vs[..i + 1] == vs[..i] + [vs[i]];
      NoGreaseAppend(vs[..i], [vs[i]]);
      if !IsGrease(vs[i]) {
        kept := kept + [vs[i]];
      }
    }
    assert vs[..|vs|] == vs;
  }

  lemma {:induction false} ListedAppend(a: seq<u16>, b: seq<u16>)
    ensures Listed(a + b) == Listed(a) + Listed(b)
  {
    if a == [] {
      assert a + b == b;
    } else {
      assert (a + b)[1..] == a[1..] + b;
      ListedAppend(a[1..], b);
    }
  }

  method CountAndList(es: seq<u16>) returns (count: nat, listed: seq<u16>)
    ensures count == |NoGrease(es)| && listed == Listed(es)
  {
    count, listed := 0, [];
    for i := 0 to |es|
      invariant count == |NoGrease(es[..i])| && listed == Listed(es[..i])
    {
      assert es[..i + 1] == es[..i] + [es[i]];
      NoGreaseAppend(es[..i], [es[i]]);
      ListedAppend(es[..i], [es[i]]);
      if !IsGrease(es[i]) {
        count := count + 1;
        if es[i] != EXTENSION_ALPN && es[i] != EXTENSION_SERVER_NAME {
          listed := listed + [es[i]];
        }
      }
    }
    assert es[..|es|] == es;
  }

  method WriteHead(h: ClientHello, cipherCount: nat, extensionCount: nat) returns (buf: string)
    requires cipherCount == |NoGrease(h.ciphers)| && extensionCount == |NoGrease(h.extensions)|
    ensures buf == Ja4Head(h)
  {
    buf := "t";
    var sslVersion, hasGrease := VersionOf(h.versions);
    buf := buf + VersionText(sslVersion);
    if EXTENSION_SERVER_NAME in h.extensions && h.serverName != "" {
      buf := buf + "d";
    } else {
      buf := buf + "i";
    }
    buf := buf + CountText(cipherCount);
    buf := buf + CountText(extensionCount);
    buf := buf + ProtoText(h.protos);
  }

  method WriteExtensions(extensions: seq<u16>, schemes: seq<u16>) returns (extBuf: string)
    ensures extBuf == HexJoined(extensions) + if schemes != [] then "_" + HexJoined(schemes) else ""
  {
    extBuf := Uint16SliceToHex(extensions);
    if |schemes| > 0 {
      extBuf := extBuf + "_";
      var tail := Uint16SliceToHex(schemes);
      extBuf := extBuf + tail;
      assert extBuf == HexJoined(extensions) + ("_" + HexJoined(schemes));
    }
  }

  method TlsFingerprintJa4(hash: Hash6, h: ClientHello) returns (ja4: Ja4)
    ensures ja4 == Ja4Of(hash, h)
  {
    var ciphers := Filtered(h.ciphers);
    var extensionCount, extensions := CountAndList(h.extensions);
    var schemes := Filtered(h.schemes);
    var buf := WriteHead(h, |ciphers|, extensionCount);
    var cipherBuf := Uint16SliceToHex(Sorted(ciphers));
    var extBuf := WriteExtensions(Sorted(extensions), schemes);
    ja4 := Ja4(if |buf| < 10 then buf else buf[..10], Ja4Hash(hash, cipherBuf), Ja4Hash(hash, extBuf));
  }

  /** Four digits are the lower-case hexadecimal of the two bytes, high byte first. */
  lemma Hex4Is(n: u16)
    ensures var e := Hex.Encoded([n / 256, n % 256]);
            Hex4(n) == [e[0] as char, e[1] as char, e[2] as char, e[3] as char]
  {
    ByteNibbles(n);
    SameDigit(n / 4096);
    SameDigit(n / 256 % 16);
    SameDigit(n / 16 % 16);
    SameDigit(n % 16);
  }

  lemma SameDigit(k: int)
    requires 0 <= k < 16
    ensures HexChar(k) == Hex.Digit(k) as char
  {
  }

  lemma ByteNibbles(n: u16)
    ensures n / 256 / 16 == n / 4096 && n % 256 / 16 == n / 16 % 16 && n % 256 % 16 == n % 16
  {
    LowByte(n);
    DivModOf(n / 16 % 16, n % 16, 16);
  }

  /** The versions of TLS are named by their minor number, and SSL 3 by "s3". */
  lemma TlsVersionText(minor: nat)
    requires minor < 4
    ensures VersionText(0x0300) == "s3" && VersionText(0x0301 + minor) == ['1', '0' + minor as char]
  {
    assert minor == 0 || minor == 1 || minor == 2 || minor == 3;
  }

  /** Any other version by its two bytes less 2 and 1. */
  lemma OtherVersionText(v: u16, a: nat, b: nat)
    requires v == 0x0201 + a * 256 + b && b < 256 && v !in {0x0300, 0x0301, 0x0302, 0x0303, 0x0304}
    ensures VersionText(v) == Decimal(a) + Decimal(b)
  {
    var w := v - 0x0201;
    DivModOf(0, w, 65536);
    DivModOf(a, b, 256);
  }

  lemma CountTextValue(n: nat)
    ensures |CountText(n)| == 2 && AllDigits(CountText(n))
    ensures DecimalValue(CountText(n)) == if n < 99 then n else 99
  {
    CountTextTwoChars(n);
    if n < 10 {
      ValueOfDecimal(1, n);
      assert Zeros(1) + Decimal(n) == CountText(n);
    } else if n <= 99 {
      ValueOfDecimal(0, n);
      assert Zeros(0) + Decimal(n) == CountText(n);
    } else {
      ValueSnoc([], 9);
      ValueSnoc(['9'], 9);
      assert [] + [DigitChar(9)] == ['9'] && ['9'] + [DigitChar(9)] == "99";
    }
  }

  /** What stands where in the readable part, for versions of two characters: the version; whether a name
      was sent; the numbers of kept ciphers and extensions, up to 99; the ends of the first protocol. */
  lemma HeadReads(h: ClientHello)
    requires |VersionText(MaxVersion(h.versions))| == 2
    ensures var a := Ja4Head(h);
            && |a| == 10 && a[0] == 't' && a[1..3] == VersionText(MaxVersion(h.versions))
            && (a[3] == 'd' <==> 0 in h.extensions && h.serverName != "")
            && AllDigits(a[4..6]) && DecimalValue(a[4..6]) == (if |NoGrease(h.ciphers)| < 99 then |NoGrease(h.ciphers)| else 99)
            && AllDigits(a[6..8]) && DecimalValue(a[6..8]) == (if |NoGrease(h.extensions)| < 99 then |NoGrease(h.extensions)| else 99)
            && (if h.protos == [] || |h.protos[0]| < 2 then a[8..] == "00"
                else a[8] == h.protos[0][0] && a[9] == h.protos[0][|h.protos[0]| - 1])
  {
    var a := Ja4Head(h);
    var x, y := CountText(|NoGrease(h.ciphers)|), CountText(|NoGrease(h.extensions)|);
    CountTextValue(|NoGrease(h.ciphers)|);
    CountTextValue(|NoGrease(h.extensions)|);
    assert a[4..6] == x && a[6..8] == y && a[8..] == ProtoText(h.protos);
  }

  lemma {:induction false} HexJoinedChars(ns: seq<u16>)
    ensures '_' !in HexJoined(ns)
    ensures ns != [] ==> HexJoined(ns) != ""
  {
    if |ns| > 1 {
      HexJoinedChars(ns[1..]);
    }
  }

  lemma UnderscoreSplits(a: string, p: string, b: string, q: string)
    requires '_' !in a && '_' !in b && a + ['_'] + p == b + ['_'] + q
    ensures a == b && p == q
  {
    CutAt(a, '_', p);
    CutAt(b, '_', q);
  }

  /** The text of two lists, the second left out with its separator when it is empty. */
  function TwoLists(a: seq<u16>, p: seq<u16>): string {
    HexJoined(a) + if p != [] then ['_'] + HexJoined(p) else ""
  }

  lemma TwoListsForm(a: seq<u16>, p: seq<u16>)
    ensures '_' in TwoLists(a, p) <==> p != []
    ensures TwoLists(a, p) == if p != [] then HexJoined(a) + ['_'] + HexJoined(p) else HexJoined(a)
  {
    HexJoinedChars(a);
  }

  lemma TwoListsInjective(a: seq<u16>, p: seq<u16>, b: seq<u16>, q: seq<u16>)
    requires TwoLists(a, p) == TwoLists(b, q)
    ensures a == b && p == q
  {
    TwoListsForm(a, p);
    TwoListsForm(b, q);
    HexJoinedChars(a);
    HexJoinedChars(b);
    if p != [] {
      UnderscoreSplits(HexJoined(a), HexJoined(p), HexJoined(b), HexJoined(q));
      HexJoinedInjective(p, q);
    }
    HexJoinedInjective(a, b);
  }

  /** The listed extensions: those kept, but for ALPN and server_name. */
  lemma {:induction false} ListedIff(es: seq<u16>, v: u16)
    ensures v in Listed(es) <==> v in es && !IsGrease(v) && v != 16 && v != 0
  {
    if es != [] {
      ListedIff(es[1..], v);
      assert v in es <==> v == es[0] || v in es[1..];
    }
  }

  ghost predicate NoCollision(hash: Hash6, s: string, t: string) {
    Ja4Hash(hash, s) == Ja4Hash(hash, t) ==> s == t
  }

  lemma ExtensionTextIs(h: ClientHello)
    ensures Ja4ExtensionText(h) == TwoLists(Sorted(Listed(h.extensions)), NoGrease(h.schemes))
  {
  }

  /** What the two hashed parts tell, unless the hash collides on the texts at hand: the second, the
      ciphers in any order; the third, the listed extensions in any order and the schemes in theirs. */
  lemma Ja4PartsMean(hash: Hash6, g: ClientHello, h: ClientHello)
    requires NoCollision(hash, Ja4CipherText(g), Ja4CipherText(h))
    requires NoCollision(hash, Ja4ExtensionText(g), Ja4ExtensionText(h))
    ensures Ja4Of(hash, g).b == Ja4Of(hash, h).b <==> multiset(NoGrease(g.ciphers)) == multiset(NoGrease(h.ciphers))
    ensures Ja4Of(hash, g).c == Ja4Of(hash, h).c <==>
            multiset(Listed(g.extensions)) == multiset(Listed(h.extensions)) && NoGrease(g.schemes) == NoGrease(h.schemes)
  {
    SortedEqualIff(NoGrease(g.ciphers), NoGrease(h.ciphers));
    SortedEqualIff(Listed(g.extensions), Listed(h.extensions));
    ExtensionTextIs(g);
    ExtensionTextIs(h);
    if Ja4ExtensionText(g) == Ja4ExtensionText(h) {
      TwoListsInjective(Sorted(Listed(g.extensions)), NoGrease(g.schemes), Sorted(Listed(h.extensions)), NoGrease(h.schemes));
    }
    if Ja4CipherText(g) == Ja4CipherText(h) {
      HexJoinedInjective(Sorted(NoGrease(g.ciphers)), Sorted(NoGrease(h.ciphers)));
    }
  }

  lemma {:induction false} ListedMultiset(s: seq<u16>, v: u16)
    ensures multiset(Listed(s))[v] ==
            if v == EXTENSION_ALPN || v == EXTENSION_SERVER_NAME then 0 else multiset(NoGrease(s))[v]
  {
    if s != [] {
      ListedMultiset(s[1..], v);
      var head := if IsGrease(s[0]) then [] else [s[0]];
      assert multiset(NoGrease(s)) == multiset(head) + multiset(NoGrease(s[1..]));
      var listedHead := if IsGrease(s[0]) || s[0] == EXTENSION_ALPN || s[0] == EXTENSION_SERVER_NAME then [] else [s[0]];
      assert multiset(Listed(s)) == multiset(listedHead) + multiset(Listed(s[1..]));
    }
  }

  /** Only the kept versions matter. */
  lemma {:induction false} MaxVersionIgnoresGrease(vs: seq<u16>)
    ensures MaxVersion(vs) == MaxVersion(NoGrease(vs))
  {
    if vs != [] {
      var init, v := vs[..|vs| - 1], vs[|vs| - 1];
      assert vs == init + [v];
      NoGreaseAppend(init, [v]);
      MaxVersionIgnoresGrease(init);
      if IsGrease(v) {
        assert NoGrease(vs) == NoGrease(init);
      } else {
        assert NoGrease(vs) == NoGrease(init) + [v];
        assert NoGrease(vs)[..|NoGrease(vs)| - 1] == NoGrease(init);
      }
    }
  }

  /** JA4 ignores the order of ciphers and extensions, and masked values in versions, ciphers,
      extensions and signature schemes. */
  lemma Ja4NormalForm(hash: Hash6, g: ClientHello, h: ClientHello)
    requires g.serverName == h.serverName && g.protos == h.protos
    requires NoGrease(g.versions) == NoGrease(h.versions) && NoGrease(g.schemes) == NoGrease(h.schemes)
    requires multiset(NoGrease(g.ciphers)) == multiset(NoGrease(h.ciphers))
    requires multiset(NoGrease(g.extensions)) == multiset(NoGrease(h.extensions))
    ensures Ja4Of(hash, g) == Ja4Of(hash, h)
  {
    SameHead(g, h);
    SortedEqualIff(NoGrease(g.ciphers), NoGrease(h.ciphers));
    SameListed(g.extensions, h.extensions);
    SortedEqualIff(Listed(g.extensions), Listed(h.extensions));
  }

  lemma SameHead(g: ClientHello, h: ClientHello)
    requires g.serverName == h.serverName && g.protos == h.protos && NoGrease(g.versions) == NoGrease(h.versions)
    requires multiset(NoGrease(g.ciphers)) == multiset(NoGrease(h.ciphers))
    requires multiset(NoGrease(g.extensions)) == multiset(NoGrease(h.extensions))
    ensures Ja4Head(g) == Ja4Head(h)
  {
    MaxVersionIgnoresGrease(g.versions);
    MaxVersionIgnoresGrease(h.versions);
    SameKeptMembers(g.extensions, h.extensions, EXTENSION_SERVER_NAME);
    SameCount(NoGrease(g.ciphers), NoGrease(h.ciphers));
    SameCount(NoGrease(g.extensions), NoGrease(h.extensions));
  }

  lemma SameListed(a: seq<u16>, b: seq<u16>)
    requires multiset(NoGrease(a)) == multiset(NoGrease(b))
    ensures multiset(Listed(a)) == multiset(Listed(b))
  {
    forall v: u16 ensures multiset(Listed(a))[v] == multiset(Listed(b))[v] {
      ListedMultiset(a, v);
      ListedMultiset(b, v);
    }
  }

  /** The cut to ten bytes loses nothing exactly when the version prints as two characters. */
  lemma HeadFitsIff(h: ClientHello)
    ensures |Ja4Head(h)| >= 10
    ensures |Ja4Head(h)| == 10 <==> |VersionText(MaxVersion(h.versions))| == 2
  {
    CountTextTwoChars(|NoGrease(h.ciphers)|);
    CountTextTwoChars(|NoGrease(h.extensions)|);
    assert |VersionText(MaxVersion(h.versions))| >= 2;
  }
}
