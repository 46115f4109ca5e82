/** The raw query codec of utils/http.go and the internal-key filter of lib/http.go. A char stands
    for one byte of the Go string. */
module RawQuery {
  import opened Strings

  type Values = map<string, seq<string>>

  /** One key with one value. */
  type Pair = (string, string)

  // ---- the pairs a query spells ----------------------------------------

  /** What one segment between ampersands contributes. */
  function SegmentPairs(segment: string): seq<Pair> {
    if ';' in segment || segment == "" then [] else [Cut(segment, '=')]
  }

  function Pairs(raw: string): seq<Pair>
    decreases |raw|
  {
    if raw == "" then []
    else
      var (segment, rest) := Cut(raw, '&');
      assert |rest| < |raw|;
      SegmentPairs(segment) + Pairs(rest)
  }

  /** The values of one key, in order. */
  function ValuesFor(ps: seq<Pair>, k: string): seq<string> {
    if ps == [] then []
    else (if ps[0].0 == k then [ps[0].1] else []) + ValuesFor(ps[1..], k)
  }

  function Keys(ps: seq<Pair>): set<string> {
    set p | p in ps :: p.0
  }

  /** The map a list of pairs builds. */
  function Group(ps: seq<Pair>): Values {
    map k | k in Keys(ps) :: ValuesFor(ps, k)
  }

  function Parsed(raw: string): Values {
    Group(Pairs(raw))
  }

  lemma {:induction false} ValuesForAppend(ps: seq<Pair>, qs: seq<Pair>, k: string)
    ensures ValuesFor(ps + qs, k) == ValuesFor(ps, k) + ValuesFor(qs, k)
  {
    if ps == [] {
      assert ps + qs == qs;
    } else {
      assert (ps + qs)[1..] == ps[1..] + qs;
      ValuesForAppend(ps[1..], qs, k);
    }
  }

  lemma {:induction false} ValuesForEmptyIff(ps: seq<Pair>, k: string)
    ensures ValuesFor(ps, k) == [] <==> k !in Keys(ps)
  {
    if ps != [] {
      ValuesForEmptyIff(ps[1..], k);
      assert forall p :: p in ps <==> p == ps[0] || p in ps[1..];
      assert ps[0].0 in Keys(ps);
      if k in Keys(ps) && k != ps[0].0 {
        var p :| p in ps && p.0 == k;
        assert p in ps[1..];
      }
      if k in Keys(ps[1..]) {
        var p :| p in ps[1..] && p.0 == k;
        assert p in ps;
      }
    }
  }

  lemma KeysSnoc(ps: seq<Pair>, k: string, v: string)
    ensures Keys(ps + [(k, v)]) == Keys(ps) + {k}
  {
    var qs := ps + [(k, v)];
    assert forall p :: p in qs <==> p in ps || p == (k, v);
    assert (k, v) in qs;
    forall x | x in Keys(ps) ensures x in Keys(qs) {
      var p :| p in ps && p.0 == x;
      assert p in qs;
    }
  }

  /** A value joins the end of its key's list and touches nothing else. */
  lemma GroupSnoc(ps: seq<Pair>, k: string, v: string)
    ensures Group(ps + [(k, v)]) == Group(ps)[k := ValuesFor(ps, k) + [v]]
    ensures ValuesFor(ps, k) == if k in Group(ps) then Group(ps)[k] else []
  {
    var qs := ps + [(k, v)];
    KeysSnoc(ps, k, v);
    ValuesForEmptyIff(ps, k);
    forall x | x in Keys(qs) ensures ValuesFor(qs, x) == Group(ps)[k := ValuesFor(ps, k) + [v]][x] {
      ValuesForAppend(ps, [(k, v)], x);
      assert ValuesFor([(k, v)], x) == if x == k then [v] else [];
      assert x != k ==> ValuesFor(qs, x) == ValuesFor(ps, x) + [];
    }
  }

  lemma SegmentStep(ps: seq<Pair>, raw: string)
    requires raw != ""
    ensures var (segment, rest) := Cut(raw, '&');
            && |rest| < |raw|
            && (';' in raw <==> ';' in segment || ';' in rest)
            && ps + Pairs(raw) ==
               (if ';' in segment || segment == "" then ps else ps + [Cut(segment, '=')]) + Pairs(rest)
  {
    var (segment, rest) := Cut(raw, '&');
    JoinAssociates(ps, SegmentPairs(segment), Pairs(rest));
    assert SegmentPairs(segment) == [] ==> ps + SegmentPairs(segment) == ps;
  }

  /** ParseRawQuery: the error remembers that a semicolon was seen anywhere. */
  method ParseRawQuery(raw: string) returns (m: Values, ok: bool)
    ensures m == Parsed(raw)
    ensures ok <==> ';' !in raw
  {
    m := map[];
    ok := true;
    ghost var ps: seq<Pair> := [];
    assert Group(ps) == map[];
    var rawQuery := raw;
    while rawQuery != ""
      invariant m == Group(ps)
      invariant Pairs(raw) == ps + Pairs(rawQuery)
      invariant ok && ';' !in rawQuery <==> ';' !in raw
      decreases |rawQuery|
    {
      var (key, rest) := Cut(rawQuery, '&');
      SegmentStep(ps, rawQuery);
      rawQuery := rest;
      if ';' in key {
        ok := false;
        continue;
      }
      if key == "" {
        continue;
      }
      var (k, value) := Cut(key, '=');
      GroupSnoc(ps, k, value);
      m := m[k := (if k in m then m[k] else []) + [value]];
      ps := ps + [(k, value)];
    }
    assert ps + Pairs(rawQuery) == ps;
  }

  // ---- encoding ---------------------------------------------------------

  /** The byte-wise order slices.Sorted uses. */
  predicate Before(a: string, b: string) {
    b != "" && (a == "" || a[0] < b[0] || (a[0] == b[0] && Before(a[1..], b[1..])))
  }

  lemma {:induction false} BeforeTransitive(a: string, b: string, c: string)
    requires Before(a, b) && Before(b, c)
    ensures Before(a, c)
  {
    if a != "" && a[0] == b[0] == c[0] {
      BeforeTransitive(a[1..], b[1..], c[1..]);
    }
  }

  lemma {:induction false} BeforeTrichotomy(a: string, b: string)
    ensures Before(a, b) || a == b || Before(b, a)
    ensures !(Before(a, b) && (a == b || Before(b, a)))
  {
    if a != "" && b != "" && a[0] == b[0] {
      BeforeTrichotomy(a[1..], b[1..]);
      assert a == [a[0]] + a[1..] && b == [b[0]] + b[1..];
    }
  }

  /** That is: at the first difference the smaller byte comes first, and a prefix before what it begins. */
  lemma {:induction false} BeforeIff(a: string, b: string)
    ensures Before(a, b) <==>
            exists i: nat :: i <= |a| && i < |b| && a[..i] == b[..i] && (i == |a| || a[i] < b[i])
  {
    forall i | 0 < i <= |a| && i <= |b| && a[..i] == b[..i] ensures a[0] == b[0] {
      assert a[..i][0] == b[..i][0];
    }
    if a != "" && b != "" && a[0] == b[0] {
      BeforeIff(a[1..], b[1..]);
      if i: nat :| i <= |a[1..]| && i < |b[1..]| && a[1..][..i] == b[1..][..i] && (i == |a[1..]| || a[1..][i] < b[1..][i]) {
        assert a[..i + 1] == [a[0]] + a[1..][..i] && b[..i + 1] == [b[0]] + b[1..][..i];
      }
      if i: nat :| i <= |a| && i < |b| && a[..i] == b[..i] && (i == |a| || a[i] < b[i]) {
        assert i > 0;
        assert a[1..][..i - 1] == a[..i][1..] && b[1..][..i - 1] == b[..i][1..];
      }
    } else if b != "" && (a == "" || a[0] < b[0]) {
      assert a[..0] == b[..0];
    }
  }

  ghost predicate Ascending(ks: seq<string>) {
    forall i, j :: 0 <= i < j < |ks| ==> Before(ks[i], ks[j])
  }

  /** ks lists s, each key once, in order. */
  ghost predicate SortedListing(ks: seq<string>, s: set<string>) {
    Ascending(ks) && forall k :: k in ks <==> k in s
  }

  lemma {:induction false} SortedListingUnique(ks: seq<string>, ls: seq<string>, s: set<string>)
    requires SortedListing(ks, s) && SortedListing(ls, s)
    ensures ks == ls
    decreases |ks|
  {
    assert ls != [] ==> ls[0] in ls && ls[0] in s;
    if ks != [] {
      assert ks[0] in s;
      assert ls != [];
      assert ls[0] in s && ls[0] in ks && ks[0] in ls;
      BeforeTrichotomy(ks[0], ls[0]);
      assert ks[0] == ls[0];
      TailListing(ks, s);
      TailListing(ls, s);
      SortedListingUnique(ks[1..], ls[1..], s - {ks[0]});
      assert ks == [ks[0]] + ks[1..] && ls == [ls[0]] + ls[1..];
    }
  }

  lemma TailListing(ks: seq<string>, s: set<string>)
    requires SortedListing(ks, s) && ks != []
    ensures SortedListing(ks[1..], s - {ks[0]})
  {
    BeforeTrichotomy(ks[0], ks[0]);
    assert ks == [ks[0]] + ks[1..];
    assert forall i :: 0 < i < |ks| ==> ks[i] != ks[0];
  }

  function Inserted(ks: seq<string>, k: string): (r: seq<string>)
    requires Ascending(ks) && k !in ks
    ensures Ascending(r) && forall x :: x in r <==> x == k || x in ks
  {
    if ks == [] then [k]
    else if Before(k, ks[0]) then
      assert forall j :: 0 < j < |ks| ==> Before(k, ks[j]) by {
        forall j | 0 < j < |ks| ensures Before(k, ks[j]) { BeforeTransitive(k, ks[0], ks[j]); }
      }
      [k] + ks
    else
      BeforeTrichotomy(k, ks[0]);
      var r := Inserted(ks[1..], k);
      assert forall j :: 0 <= j < |r| ==> Before(ks[0], r[j]) by {
        forall j | 0 <= j < |r| ensures Before(ks[0], r[j]) { assert r[j] in r; }
      }
      [ks[0]] + r
  }

  method SortKeys(s: set<string>) returns (ks: seq<string>)
    ensures SortedListing(ks, s)
  {
    ks := [];
    var rest := s;
    while rest != {}
      invariant rest <= s && SortedListing(ks, s - rest)
      decreases rest
    {
      var k :| k in rest;
      ks := Inserted(ks, k);
      rest := rest - {k};
    }
  }

  function Text(p: Pair): string {
    if p.1 == "" then p.0 else p.0 + "=" + p.1
  }

  /** The builder after one more pair; the separator is only written into a non-empty builder. */
  function Written(buf: string, p: Pair): string {
    (if buf != "" then buf + "&" else buf) + Text(p)
  }

  function WrittenAll(buf: string, ps: seq<Pair>): string
    decreases |ps|
  {
    if ps == [] then buf else WrittenAll(Written(buf, ps[0]), ps[1..])
  }

  function KeyPairs(k: string, vs: seq<string>): seq<Pair> {
    seq(|vs|, i requires 0 <= i < |vs| => (k, vs[i]))
  }

  function Flatten(m: Values, ks: seq<string>): seq<Pair>
    requires forall k :: k in ks ==> k in m
  {
    if ks == [] then [] else KeyPairs(ks[0], m[ks[0]]) + Flatten(m, ks[1..])
  }

  /** s is the encoding of m. */
  ghost predicate IsEncoding(m: Values, s: string) {
    exists ks :: SortedListing(ks, m.Keys) && s == WrittenAll("", Flatten(m, ks))
  }

  /** The encoding is a function of the map alone. */
  lemma EncodingUnique(m: Values, s: string, t: string)
    requires IsEncoding(m, s) && IsEncoding(m, t)
    ensures s == t
  {
    var ks :| SortedListing(ks, m.Keys) && s == WrittenAll("", Flatten(m, ks));
    var ls :| SortedListing(ls, m.Keys) && t == WrittenAll("", Flatten(m, ls));
    SortedListingUnique(ks, ls, m.Keys);
  }

  method EncodeRawQuery(m: Values) returns (s: string)
    ensures IsEncoding(m, s)
  {
    if |m| == 0 {
      assert m == map[];
      assert SortedListing([], m.Keys) && "" == WrittenAll("", Flatten(m, []));
      return "";
    }
    var ks := SortKeys(m.Keys);
    s := "";
    assert ks[0..] == ks;
    for i := 0 to |ks|
      invariant WrittenAll(s, Flatten(m, ks[i..])) == WrittenAll("", Flatten(m, ks))
    {
      assert ks[i..][1..] == ks[i + 1..];
      WrittenAllSplit(s, KeyPairs(ks[i], m[ks[i]]), Flatten(m, ks[i + 1..]));
      s := WriteKey(s, ks[i], m[ks[i]]);
    }
  }

  lemma KeyPairsStep(k: string, vs: seq<string>, j: nat)
    requires j < |vs|
    ensures KeyPairs(k, vs[j..]) == [(k, vs[j])] + KeyPairs(k, vs[j + 1..])
  {
  }

  /** The inner loop: one key with each of its values. */
  method WriteKey(start: string, k: string, vs: seq<string>) returns (buf: string)
    ensures buf == WrittenAll(start, KeyPairs(k, vs))
  {
    buf := start;
    assert vs[0..] == vs;
    for j := 0 to |vs|
      invariant WrittenAll(buf, KeyPairs(k, vs[j..])) == WrittenAll(start, KeyPairs(k, vs))
    {
      KeyPairsStep(k, vs, j);
      buf := WritePair(buf, k, vs[j]);
    }
  }

  method WritePair(start: string, k: string, v: string) returns (buf: string)
    ensures buf == Written(start, (k, v))
  {
    buf := start;
    if |buf| > 0 {
      buf := buf + "&";
    }
    ghost var b := buf;
    buf := buf + k;
    if v != "" {
      buf := buf + "=";
      buf := buf + v;
      assert buf == b + (k + "=" + v);
    }
  }

  lemma {:induction false} WrittenAllSplit(buf: string, ps: seq<Pair>, qs: seq<Pair>)
    ensures WrittenAll(buf, ps + qs) == WrittenAll(WrittenAll(buf, ps), qs)
    decreases |ps|
  {
    if ps == [] {
      assert ps + qs == qs;
    } else {
      assert (ps + qs)[1..] == ps[1..] + qs;
      WrittenAllSplit(Written(buf, ps[0]), ps[1..], qs);
    }
  }

  /** The text itself: a value behind an equals sign, nothing for an empty one, values in order. */
  lemma ValuesText(k: string, v: string, s: string)
    requires v != "" && IsEncoding(map[k := [v, ""]], s)
    ensures s == k + "=" + v + "&" + k
  {
    var m := map[k := [v, ""]];
    var ks :| SortedListing(ks, m.Keys) && s == WrittenAll("", Flatten(m, ks));
    BeforeTrichotomy(k, k);
    assert SortedListing([k], m.Keys);
    SortedListingUnique(ks, [k], m.Keys);
    assert KeyPairs(k, [v, ""]) == [(k, v), (k, "")];
    assert Flatten(m, [k]) == [(k, v), (k, "")] + Flatten(m, [k][1..]) == [(k, v), (k, "")];
    TwoWritten((k, v), (k, ""));
  }

  /** And keys in order. */
  lemma KeysText(k: string, l: string, v: string, w: string, s: string)
    requires Before(k, l) && v != "" && w != "" && IsEncoding(map[k := [v], l := [w]], s)
    ensures s == k + "=" + v + "&" + (l + "=" + w)
  {
    var m := map[k := [v], l := [w]];
    var ks :| SortedListing(ks, m.Keys) && s == WrittenAll("", Flatten(m, ks));
    BeforeTrichotomy(k, l);
    assert SortedListing([k, l], m.Keys);
    SortedListingUnique(ks, [k, l], m.Keys);
    TwoKeys(m, k, l);
    TwoWritten((k, v), (l, w));
  }

  lemma TwoKeys(m: Values, k: string, l: string)
    requires k in m && l in m && |m[k]| == 1 == |m[l]|
    ensures Flatten(m, [k, l]) == [(k, m[k][0]), (l, m[l][0])]
  {
    assert KeyPairs(k, m[k]) == [(k, m[k][0])] && KeyPairs(l, m[l]) == [(l, m[l][0])];
    assert [k, l][1..] == [l] && [l][1..] == [];
    assert Flatten(m, [l]) == [(l, m[l][0])] + [];
  }

  lemma TwoWritten(p: Pair, q: Pair)
    requires Text(p) != ""
    ensures WrittenAll("", [p, q]) == Text(p) + "&" + Text(q)
  {
    assert [p, q][1..] == [q] && [q][1..] == [];
    assert Written("", p) == Text(p);
    assert WrittenAll("", [p, q]) == WrittenAll(Text(p), [q]) == Written(Text(p), q);
  }

  // ---- the round trip ---------------------------------------------------

  /** An ampersand separates what it stands between, even next to empty segments. */
  lemma {:induction false} PairsSplit(a: string, b: string)
    ensures Pairs(a + "&" + b) == Pairs(a) + Pairs(b)
    decreases |a|
  {
    if '&' in a {
      var (segment, rest) := Cut(a, '&');
      TextAssociates(segment, rest, b);
      PairsHead(segment, rest);
      PairsHead(segment, rest + "&" + b);
      PairsSplit(rest, b);
      JoinAssociates(SegmentPairs(segment), Pairs(rest), Pairs(b));
    } else {
      PairsHead(a, b);
      LonelySegment(a);
    }
  }

  lemma PairsHead(segment: string, rest: string)
    requires '&' !in segment
    ensures Pairs(segment + "&" + rest) == SegmentPairs(segment) + Pairs(rest)
  {
    CutAt(segment, '&', rest);
    assert segment + "&" + rest == segment + ['&'] + rest;
  }

  lemma TextAssociates(a: string, b: string, c: string)
    ensures a + ['&'] + b + "&" + c == a + "&" + (b + "&" + c)
  {
  }

  lemma LonelySegment(a: string)
    requires '&' !in a
    ensures Pairs(a) == SegmentPairs(a)
  {
    assert Cut(a, '&') == (a, "");
    assert SegmentPairs(a) + [] == SegmentPairs(a);
  }

  /** A pair free of the separators. */
  ghost predicate Spellable(p: Pair) {
    && '&' !in p.0 && ';' !in p.0 && '=' !in p.0
    && '&' !in p.1 && ';' !in p.1
  }

  /** The pairs that leave a trace: an empty key with an empty value is written as nothing. */
  function Kept(ps: seq<Pair>): seq<Pair> {
    if ps == [] then [] else (if ps[0] == ("", "") then [] else [ps[0]]) + Kept(ps[1..])
  }

  function NonEmpty(vs: seq<string>): (r: seq<string>)
    ensures |r| <= |vs| && (|r| == |vs| <==> "" !in vs)
    ensures "" !in vs ==> r == vs
  {
    if vs == [] then [] else
      assert "" in vs <==> vs[0] == "" || "" in vs[1..];
      (if vs[0] == "" then [] else [vs[0]]) + NonEmpty(vs[1..])
  }

  lemma PairsOfText(p: Pair)
    requires Spellable(p)
    ensures Pairs(Text(p)) == Kept([p]) && ';' !in Text(p)
  {
    assert Kept([p]) == if p == ("", "") then [] else [p];
    LonelySegment(Text(p));
    if p.1 != "" {
      CutAt(p.0, '=', p.1);
      assert Text(p) == p.0 + ['='] + p.1;
    }
  }

  lemma PairsOfOneMore(buf: string, p: Pair)
    requires Spellable(p)
    ensures Pairs(Written(buf, p)) == Pairs(buf) + Kept([p])
    ensures ';' !in buf ==> ';' !in Written(buf, p)
  {
    PairsOfText(p);
    if buf != "" {
      PairsSplit(buf, Text(p));
    } else {
      assert "" + Text(p) == Text(p);
    }
  }

  lemma {:induction false} PairsOfWritten(buf: string, ps: seq<Pair>)
    requires forall p :: p in ps ==> Spellable(p)
    ensures Pairs(WrittenAll(buf, ps)) == Pairs(buf) + Kept(ps)
    ensures ';' !in buf ==> ';' !in WrittenAll(buf, ps)
    decreases |ps|
  {
    if ps == [] {
      assert Pairs(buf) + [] == Pairs(buf);
    } else {
      assert ps[0] in ps;
      PairsOfOneMore(buf, ps[0]);
      PairsOfWritten(Written(buf, ps[0]), ps[1..]);
      KeptHead(ps);
      JoinAssociates(Pairs(buf), Kept([ps[0]]), Kept(ps[1..]));
    }
  }

  lemma KeptHead(ps: seq<Pair>)
    requires ps != []
    ensures Kept(ps) == Kept([ps[0]]) + Kept(ps[1..])
  {
    assert Kept([ps[0]]) == if ps[0] == ("", "") then [] else [ps[0]];
  }

  lemma JoinAssociates(a: seq<Pair>, b: seq<Pair>, c: seq<Pair>)
    ensures a + b + c == a + (b + c)
  {
  }

  lemma {:induction false} ValuesForKept(ps: seq<Pair>, k: string)
    ensures ValuesFor(Kept(ps), k) == if k == "" then NonEmpty(ValuesFor(ps, k)) else ValuesFor(ps, k)
  {
    if ps != [] {
      ValuesForKept(ps[1..], k);
      assert ps[0] != ("", "") ==> Kept(ps)[1..] == Kept(ps[1..]);
      var tail := ValuesFor(ps[1..], k);
      assert ps[0].0 == k ==> ValuesFor(ps, k)[0] == ps[0].1 && ValuesFor(ps, k)[1..] == tail;
      assert ps[0].0 != k ==> ValuesFor(ps, k) == tail;
      if ps[0] == ("", "") {
        assert [] + Kept(ps[1..]) == Kept(ps[1..]);
        assert k == "" ==> NonEmpty(ValuesFor(ps, k)) == [] + NonEmpty(tail) == NonEmpty(tail);
      } else {
        assert Kept(ps)[0] == ps[0];
        assert ps[0].0 != k ==> ValuesFor(Kept(ps), k) == [] + ValuesFor(Kept(ps[1..]), k) == ValuesFor(Kept(ps[1..]), k);
      }
    }
  }

  lemma {:induction false} ValuesForKeyPairs(k: string, vs: seq<string>, x: string)
    ensures ValuesFor(KeyPairs(k, vs), x) == if x == k then vs else []
  {
    if vs != [] {
      var ps := KeyPairs(k, vs);
      assert ps[1..] == KeyPairs(k, vs[1..]);
      ValuesForKeyPairs(k, vs[1..], x);
      assert vs == [vs[0]] + vs[1..];
    }
  }

  lemma {:induction false} ValuesForFlatten(m: Values, ks: seq<string>, x: string)
    requires Ascending(ks) && forall k :: k in ks ==> k in m
    ensures ValuesFor(Flatten(m, ks), x) == if x in ks then m[x] else []
  {
    if ks != [] {
      var head := KeyPairs(ks[0], m[ks[0]]);
      ValuesForAppend(head, Flatten(m, ks[1..]), x);
      ValuesForKeyPairs(ks[0], m[ks[0]], x);
      ValuesForFlatten(m, ks[1..], x);
      TailListing(ks, set k | k in ks);
    }
  }

  /** Maps all of whose pairs are free of the separators. */
  ghost predicate SpellableValues(m: Values) {
    forall k, v :: k in m && v in m[k] ==> Spellable((k, v))
  }

  lemma {:induction false} FlattenSpellable(m: Values, ks: seq<string>)
    requires SpellableValues(m) && forall k :: k in ks ==> k in m
    ensures forall p :: p in Flatten(m, ks) ==> Spellable(p)
  {
    if ks != [] {
      FlattenSpellable(m, ks[1..]);
      assert forall p :: p in KeyPairs(ks[0], m[ks[0]]) ==> p.0 == ks[0] && p.1 in m[ks[0]];
    }
  }

  /** The values of a key that an encoding spells. */
  function Survivors(m: Values, k: string): seq<string>
    requires k in m
  {
    if k == "" then NonEmpty(m[k]) else m[k]
  }

  function Spelt(m: Values): Values {
    map k | k in m && Survivors(m, k) != [] :: Survivors(m, k)
  }

  /** For every map free of the separators: its encoding parses without error to everything in it
      that has a spelling, in order. */
  lemma ParseOfEncoding(m: Values, s: string)
    requires IsEncoding(m, s) && SpellableValues(m)
    ensures Parsed(s) == Spelt(m) && ';' !in s
  {
    var ks :| SortedListing(ks, m.Keys) && s == WrittenAll("", Flatten(m, ks));
    var ps := Flatten(m, ks);
    FlattenSpellable(m, ks);
    PairsOfWritten("", ps);
    assert Pairs(s) == Kept(ps);
    forall x
      ensures ValuesFor(Kept(ps), x) == (if x in m then Survivors(m, x) else [])
      ensures x in Keys(Kept(ps)) <==> x in m && Survivors(m, x) != []
    {
      KeptOfFlatten(m, ks, x);
    }
    GroupIsSpelt(Kept(ps), m);
  }

  lemma GroupIsSpelt(ps: seq<Pair>, m: Values)
    requires forall x :: ValuesFor(ps, x) == (if x in m then Survivors(m, x) else [])
    requires forall x :: x in Keys(ps) <==> x in m && Survivors(m, x) != []
    ensures Group(ps) == Spelt(m)
  {
  }

  lemma KeptOfFlatten(m: Values, ks: seq<string>, x: string)
    requires SortedListing(ks, m.Keys)
    ensures ValuesFor(Kept(Flatten(m, ks)), x) == if x in m then Survivors(m, x) else []
    ensures x in Keys(Kept(Flatten(m, ks))) <==> x in m && Survivors(m, x) != []
  {
    ValuesForFlatten(m, ks, x);
    ValuesForKept(Flatten(m, ks), x);
    ValuesForEmptyIff(Kept(Flatten(m, ks)), x);
    assert x in ks <==> x in m;
  }

  /** What a parse yields is always free of the separators. */
  lemma {:induction false} PairsAreSpellable(raw: string)
    ensures forall p :: p in Pairs(raw) ==> Spellable(p)
    decreases |raw|
  {
    if raw != "" {
      var (segment, rest) := Cut(raw, '&');
      PairsAreSpellable(rest);
      if segment != "" && ';' !in segment {
        var (k, v) := Cut(segment, '=');
        assert '=' in segment ==> segment == k + ['='] + v;
        assert forall c :: c in k || c in v ==> c in segment;
        assert Spellable((k, v));
      }
    }
  }

  lemma {:induction false} ValueComesFromPair(ps: seq<Pair>, k: string, v: string)
    ensures v in ValuesFor(ps, k) <==> (k, v) in ps
  {
    if ps != [] {
      ValueComesFromPair(ps[1..], k, v);
      assert (k, v) in ps <==> (k, v) == ps[0] || (k, v) in ps[1..];
    }
  }

  lemma ParsedIsSpellable(raw: string)
    ensures SpellableValues(Parsed(raw)) && forall k :: k in Parsed(raw) ==> Parsed(raw)[k] != []
  {
    PairsAreSpellable(raw);
    forall k, v | k in Parsed(raw) && v in Parsed(raw)[k] ensures Spellable((k, v)) {
      ValueComesFromPair(Pairs(raw), k, v);
    }
    forall k | k in Parsed(raw) ensures Parsed(raw)[k] != [] {
      ValuesForEmptyIff(Pairs(raw), k);
    }
  }

  /** Free of the separators, no key without a value, no empty value under the empty key. */
  ghost predicate Clean(m: Values) {
    SpellableValues(m) && (forall k :: k in m ==> m[k] != []) && ("" in m ==> "" !in m[""])
  }

  /** Parsing an encoding gives the map back, without an error, exactly when the map is clean. */
  lemma RoundTripIff(m: Values, s: string)
    requires IsEncoding(m, s)
    ensures Parsed(s) == m && ';' !in s <==> Clean(m)
  {
    if Clean(m) {
      ParseOfEncoding(m, s);
      assert Spelt(m) == m;
    }
    if Parsed(s) == m {
      ParsedIsSpellable(s);
      ParseOfEncoding(m, s);
      assert "" in m ==> m[""] == Survivors(m, "");
    }
  }

  // ---- dropping the internal keys ---------------------------------------

  const QUERY_ARG_PREFIX := "__goaway"

  predicate Internal(k: string) {
    QUERY_ARG_PREFIX <= k
  }

  /** Internal keys are the prefix with anything behind it. */
  lemma InternalIff(k: string)
    ensures Internal(k) <==> exists t: string :: k == ['_', '_', 'g', 'o', 'a', 'w', 'a', 'y'] + t
  {
    var p := ['_', '_', 'g', 'o', 'a', 'w', 'a', 'y'];
    assert QUERY_ARG_PREFIX == p;
    if Internal(k) {
      assert k == p + k[8..];
    }
  }

  /** The other keys, each with its values untouched. */
  function External(m: Values): Values {
    map k | k in m && !Internal(k) :: m[k]
  }

  /** publicRawQuery, which is also what cleanupProxyRequest leaves in the proxied request. */
  method PublicRawQuery(raw: string) returns (public: string)
    ensures IsEncoding(External(Parsed(raw)), public)
  {
    var query, ok := ParseRawQuery(raw);
    var pending := query.Keys;
    while pending != {}
      invariant pending <= Parsed(raw).Keys
      invariant query == map k | k in Parsed(raw) && (k in pending || !Internal(k)) :: Parsed(raw)[k]
      decreases pending
    {
      var key :| key in pending;
      pending := pending - {key};
      if Internal(key) {
        query := query - {key};
      }
    }
    assert query == External(Parsed(raw));
    public := EncodeRawQuery(query);
  }

  /** Does some segment consist of a lone equals sign? */
  predicate HasBareEquals(raw: string)
    decreases |raw|
  {
    raw != "" && (Cut(raw, '&').0 == "=" || (assert |Cut(raw, '&').1| < |raw|; HasBareEquals(Cut(raw, '&').1)))
  }

  lemma {:induction false} BareEqualsIsEmptyPair(raw: string)
    ensures HasBareEquals(raw) <==> ("", "") in Pairs(raw)
    decreases |raw|
  {
    if raw != "" {
      var (segment, rest) := Cut(raw, '&');
      BareEqualsIsEmptyPair(rest);
      var (k, v) := Cut(segment, '=');
      assert segment != "" && (k, v) == ("", "") ==> segment == "" + ['='] + "";
      if segment == "=" {
        CutAt("", '=', "");
        assert "" + ['='] + "" == segment;
      }
    }
  }

  /** The pairs a query spells when a semicolon is a byte like any other. */
  function AllPairs(raw: string): seq<Pair>
    decreases |raw|
  {
    if raw == "" then []
    else
      var (segment, rest) := Cut(raw, '&');
      assert |rest| < |raw|;
      (if segment == "" then [] else [Cut(segment, '=')]) + AllPairs(rest)
  }

  predicate HasSemicolon(p: Pair) {
    ';' in p.0 || ';' in p.1
  }

  /** A semicolon in an external pair is what the parser drops beyond the internal keys. */
  ghost predicate ExternalSemicolon(raw: string) {
    exists p :: p in AllPairs(raw) && !Internal(p.0) && HasSemicolon(p)
  }

  lemma CutSemicolon(segment: string)
    ensures ';' in segment <==> HasSemicolon(Cut(segment, '='))
  {
    var (k, v) := Cut(segment, '=');
    assert '=' in segment ==> segment == k + ['='] + v;
  }

  /** Parsing keeps the pairs without a semicolon. */
  lemma {:induction false} PairsAreThoseWithout(raw: string, p: Pair)
    ensures p in Pairs(raw) <==> p in AllPairs(raw) && !HasSemicolon(p)
    decreases |raw|
  {
    if raw != "" {
      var (segment, rest) := Cut(raw, '&');
      PairsAreThoseWithout(rest, p);
      CutSemicolon(segment);
    }
  }

  /** A key without semicolon pairs keeps all its values, in order. */
  lemma {:induction false} ValuesWithoutSemicolon(raw: string, k: string)
    requires forall p :: p in AllPairs(raw) && p.0 == k ==> !HasSemicolon(p)
    ensures ValuesFor(Pairs(raw), k) == ValuesFor(AllPairs(raw), k)
    decreases |raw|
  {
    if raw != "" {
      var (segment, rest) := Cut(raw, '&');
      assert forall p :: p in AllPairs(rest) ==> p in AllPairs(raw);
      ValuesWithoutSemicolon(rest, k);
      CutSemicolon(segment);
      var head := if segment == "" then [] else [Cut(segment, '=')];
      assert segment != "" ==> Cut(segment, '=') in AllPairs(raw);
      ValuesForAppend(SegmentPairs(segment), Pairs(rest), k);
      ValuesForAppend(head, AllPairs(rest), k);
      assert segment != "" && Cut(segment, '=').0 != k ==> ValuesFor(head, k) == [];
    }
  }

  lemma ExternalsWithoutSemicolon(raw: string)
    requires !ExternalSemicolon(raw)
    ensures External(Parsed(raw)) == External(Group(AllPairs(raw)))
  {
    forall k | !Internal(k)
      ensures ValuesFor(Pairs(raw), k) == ValuesFor(AllPairs(raw), k)
      ensures k in Keys(Pairs(raw)) <==> k in Keys(AllPairs(raw))
    {
      ValuesWithoutSemicolon(raw, k);
      ValuesForEmptyIff(Pairs(raw), k);
      ValuesForEmptyIff(AllPairs(raw), k);
    }
  }

  /** For every query string: the filtered query parses, without error, to the external keys of the
      parse, each with its values in order, less the empty values of the empty key. */
  lemma PublicQueryParses(raw: string, public: string)
    requires IsEncoding(External(Parsed(raw)), public)
    ensures Parsed(public) == Spelt(External(Parsed(raw))) && ';' !in public
    ensures Parsed(public) == External(Parsed(raw)) <==> !HasBareEquals(raw)
    ensures forall k :: k in Parsed(public) ==> !Internal(k)
  {
    var m := External(Parsed(raw));
    ParsedIsSpellable(raw);
    ParseOfEncoding(m, public);
    RoundTripIff(m, public);
    BareEqualsIsEmptyPair(raw);
    ValueComesFromPair(Pairs(raw), "", "");
    ValuesForEmptyIff(Pairs(raw), "");
    assert !Internal("");
  }

  /** Of the text of a query the filter keeps every external pair, each key's values in order, exactly
      when no segment is a lone equals sign and no external pair holds a semicolon. */
  lemma PublicQueryKeepsTheRest(raw: string, public: string)
    requires IsEncoding(External(Parsed(raw)), public)
    ensures Parsed(public) == External(Group(AllPairs(raw))) <==> !HasBareEquals(raw) && !ExternalSemicolon(raw)
  {
    PublicQueryParses(raw, public);
    if !HasBareEquals(raw) && !ExternalSemicolon(raw) {
      ExternalsWithoutSemicolon(raw);
    }
    if Parsed(public) == External(Group(AllPairs(raw))) {
      forall p | p in AllPairs(raw) && !Internal(p.0) ensures p in Pairs(public) && !HasSemicolon(p) {
        ExternalPairIsParsed(AllPairs(raw), p, public);
      }
      assert !ExternalSemicolon(raw);
      ExternalsWithoutSemicolon(raw);
    }
  }

  lemma ExternalPairIsParsed(ps: seq<Pair>, p: Pair, public: string)
    requires Parsed(public) == External(Group(ps)) && p in ps && !Internal(p.0)
    ensures p in Pairs(public) && !HasSemicolon(p)
  {
    assert p.0 in Keys(ps);
    ValueComesFromPair(ps, p.0, p.1);
    ValueComesFromPair(Pairs(public), p.0, p.1);
    assert Parsed(public)[p.0] == ValuesFor(ps, p.0);
    PairsAreSpellable(public);
  }

  /** Once a query has been filtered, filtering it again loses nothing, and from the second pass on the
      text no longer changes either. */
  lemma FilterSettles(raw: string, once: string, twice: string, thrice: string)
    requires IsEncoding(External(Parsed(raw)), once)
    requires IsEncoding(External(Parsed(once)), twice)
    requires IsEncoding(External(Parsed(twice)), thrice)
    ensures twice == thrice && Parsed(once) == Parsed(twice)
  {
    var m := External(Parsed(raw));
    PublicQueryParses(raw, once);
    var n := Parsed(once);
    assert External(n) == n;
    assert Clean(n) by {
      ParsedIsSpellable(once);
      assert "" in n ==> "" !in NonEmpty(m[""]) by { if "" in n { NonEmptyHasNone(m[""]); } }
    }
    RoundTripIff(n, twice);
    EncodingUnique(n, twice, thrice);
  }

  lemma {:induction false} NonEmptyHasNone(vs: seq<string>)
    ensures "" !in NonEmpty(vs)
  {
    if vs != [] {
      NonEmptyHasNone(vs[1..]);
    }
  }

  lemma LoneEqualsIsOnePair()
    ensures Pairs("=") == [("", "")]
  {
    LonelySegment("=");
    CutAt("", '=', "");
    assert "" + ['='] + "" == "=";
  }

  /** The loss is real: the query "=" has one pair, and its filtered form has none. */
  lemma LoneEqualsIsLost(public: string)
    requires IsEncoding(External(Parsed("=")), public)
    ensures Parsed("=") == map["" := [""]] && Parsed(public) == map[]
  {
    var raw := "=";
    LoneEqualsIsOnePair();
    assert Parsed(raw) == map["" := [""]] by {
      assert Keys([("", "")]) == {""};
      assert ValuesFor([("", "")], "") == [""];
    }
    PublicQueryParses(raw, public);
    assert NonEmpty([""]) == [];
  }

  lemma SmallGroups(k: string, v: string)
    ensures Group([]) == map[] && Group([(k, v)]) == map[k := [v]]
  {
    assert Keys([]) == {} && Keys([(k, v)]) == {k};
    assert ValuesFor([(k, v)], k) == [v];
  }

  lemma SemicolonPair(k: string, v: string)
    requires '&' !in k && '=' !in k && '&' !in v && ';' in v
    ensures var raw := k + ['='] + v;
            AllPairs(raw) == [(k, v)] && Pairs(raw) == [] && !HasBareEquals(raw)
  {
    var raw := k + ['='] + v;
    CutAt(k, '=', v);
    assert '&' !in raw && ';' in raw;
    LonelySegment(raw);
    assert Cut(raw, '&') == (raw, "");
    assert |raw| > 1;
  }

  lemma EmptyEncoding(m: Values, public: string)
    requires m == map[] && IsEncoding(m, public)
    ensures public == ""
  {
    assert SortedListing([], m.Keys) && "" == WrittenAll("", Flatten(m, []));
    EncodingUnique(m, public, "");
  }

  /** So is the loss by a semicolon: a query such as "a=1;b=2", whose one pair is external and has a
      semicolon in its value, is filtered to nothing. */
  lemma SemicolonIsLost(k: string, v: string, public: string)
    requires '&' !in k && '=' !in k && '&' !in v && ';' in v && !Internal(k)
    requires IsEncoding(External(Parsed(k + ['='] + v)), public)
    ensures var raw := k + ['='] + v;
            External(Group(AllPairs(raw))) == map[k := [v]] && !HasBareEquals(raw) && public == ""
  {
    SemicolonPair(k, v);
    SmallGroups(k, v);
    EmptyEncoding(External(Parsed(k + ['='] + v)), public);
  }
}
