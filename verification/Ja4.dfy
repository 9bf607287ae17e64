/** The JA4 fingerprint: what it depends on, and that it depends on nothing else. */
module Ja4 {
  import opened Bytes
  import opened ClientHello
  import opened Fingerprint
  import opened Sequences
  import opened Strings

  /** The first twelve hexadecimal characters of a hash; the hash itself is a parameter. */
  type Sha = string -> string

  // ---------------------------------------------------------------- sorting

  function Insert(v: u16, s: seq<u16>): seq<u16> {
    if s == [] || v <= s[0] then [v] + s else [s[0]] + Insert(v, s[1..])
  }

  function Sorted(s: seq<u16>): seq<u16> {
    if s == [] then [] else Insert(s[0], Sorted(s[1..]))
  }

  lemma Cons(v: u16, t: seq<u16>)
    ensures Ascending([v] + t) <==> Ascending(t) && forall x :: x in t ==> v <= x
    ensures multiset([v] + t) == multiset{v} + multiset(t)
  {
    var s := [v] + t;
    assert forall i :: 0 < i < |s| ==> s[i] == t[i - 1] && s[i] in t;
    if Ascending(s) {
      assert forall i :: 0 <= i < |t| ==> t[i] == s[i + 1];
      forall x | x in t ensures v <= x {
        var i :| 0 <= i < |t| && t[i] == x;
        assert s[0] <= s[i + 1];
      }
    }
  }

  lemma FirstIsLeast(s: seq<u16>, x: u16)
    requires Ascending(s) && x in multiset(s)
    ensures s != [] && s[0] <= x
  {
    assert x in s;
    var i :| 0 <= i < |s| && s[i] == x;
  }

  lemma Uncons(s: seq<u16>)
    requires s != []
    ensures [s[0]] + s[1..] == s
  {
  }

  lemma {:induction false} InsertSorts(v: u16, s: seq<u16>)
    requires Ascending(s)
    ensures Ascending(Insert(v, s)) && multiset(Insert(v, s)) == multiset(s) + multiset{v}
  {
    hide Ascending;
    Cons(v, s);
    if s != [] {
      Uncons(s);
      Cons(s[0], s[1..]);
      if v > s[0] {
        InsertSorts(v, s[1..]);
        StillLeast(s[0], v, s[1..], Insert(v, s[1..]));
        Cons(s[0], Insert(v, s[1..]));
      }
    }
  }

  lemma StillLeast(y: u16, v: u16, s: seq<u16>, t: seq<u16>)
    requires y <= v && (forall x :: x in s ==> y <= x) && multiset(t) == multiset(s) + multiset{v}
    ensures forall x :: x in t ==> y <= x
  {
    forall x | x in t ensures y <= x {
      assert x in multiset(t);
      assert x in multiset(s) || x == v;
      assert x in multiset(s) <==> x in s;
    }
  }

  lemma {:induction false} SortedSorts(s: seq<u16>)
    ensures Ascending(Sorted(s)) && multiset(Sorted(s)) == multiset(s) && |Sorted(s)| == |s|
  {
    if s != [] {
      hide Ascending;
      SortedSorts(s[1..]);
      InsertSorts(s[0], Sorted(s[1..]));
      Uncons(s);
      Cons(s[0], s[1..]);
    }
    assert |multiset(Sorted(s))| == |multiset(s)|;
  }

  lemma SameLength(a: seq<u16>, b: seq<u16>)
    requires multiset(a) == multiset(b)
    ensures |a| == |b|
  {
    assert |multiset(a)| == |a| && |multiset(b)| == |b|;
  }

  lemma SameRest(x: u16, s: seq<u16>, t: seq<u16>)
    requires multiset{x} + multiset(s) == multiset{x} + multiset(t)
    ensures multiset(s) == multiset(t)
  {
    assert multiset(s) == (multiset{x} + multiset(s)) - multiset{x};
    assert multiset(t) == (multiset{x} + multiset(t)) - multiset{x};
  }

  /** An ascending list is determined by what it holds. */
  lemma {:induction false} AscendingUnique(a: seq<u16>, b: seq<u16>)
    requires Ascending(a) && Ascending(b) && multiset(a) == multiset(b)
    ensures a == b
    decreases |a|
  {
    hide Ascending;
    SameLength(a, b);
    if a != [] {
      Uncons(a);
      Uncons(b);
      Cons(a[0], a[1..]);
      Cons(b[0], b[1..]);
      assert a[0] in multiset(b) && b[0] in multiset(a);
      FirstIsLeast(a, b[0]);
      FirstIsLeast(b, a[0]);
      SameRest(a[0], a[1..], b[1..]);
      AscendingUnique(a[1..], b[1..]);
    }
  }

  lemma SortedSame(a: seq<u16>, b: seq<u16>)
    ensures Sorted(a) == Sorted(b) <==> multiset(a) == multiset(b)
  {
    SortedSorts(a);
    SortedSorts(b);
    if multiset(a) == multiset(b) {
      AscendingUnique(Sorted(a), Sorted(b));
    }
  }

  /** The library's in-place sort by value: ascending, and every value as often as before. */
  method SortSlice(a: array<u16>)
    modifies a
    ensures Ascending(a[..]) && multiset(a[..]) == multiset(old(a[..]))
  {
    SortedSorts(a[..]);
    var s := Sorted(a[..]);
    forall i | 0 <= i < a.Length {
      a[i] := s[i];
    }
    assert a[..] == s;
  }

  /** A sorted copy; the list itself stays in order. */
  method SortedCopy(vals: seq<u16>) returns (r: seq<u16>)
    ensures r == Sorted(vals)
  {
    var a := new u16[|vals|](i requires 0 <= i < |vals| => vals[i]);
    assert a[..] == vals;
    SortSlice(a);
    r := a[..];
    SortedSorts(vals);
    AscendingUnique(r, Sorted(vals));
  }

  // ---------------------------------------------------------------- version and server name

  function Highest(vs: seq<u16>): u16
    decreases |vs|
  {
    if vs == [] then 0
    else
      var h, v := Highest(vs[..|vs| - 1]), vs[|vs| - 1];
      if !IsGrease(v) && v > h then v else h
  }

  lemma {:induction false} HighestBounds(vs: seq<u16>)
    ensures forall v :: v in vs && !IsGrease(v) ==> v <= Highest(vs)
    ensures Highest(vs) == 0 || (Highest(vs) in vs && !IsGrease(Highest(vs)))
    decreases |vs|
  {
    if vs != [] {
      HighestBounds(vs[..|vs| - 1]);
      assert forall v :: v in vs ==> v in vs[..|vs| - 1] || v == vs[|vs| - 1];
    }
  }

  /** Order, repetition and GREASE do not matter to the highest version. */
  lemma HighestSame(a: seq<u16>, b: seq<u16>)
    requires forall v :: !IsGrease(v) ==> (v in a <==> v in b)
    ensures Highest(a) == Highest(b)
  {
    HighestBounds(a);
    HighestBounds(b);
  }

  function Resolved(ch: Hello): u16 {
    var h := Highest(ch.extensions.known.supportedVersions);
    if h > 0 then h else ch.fixed.version
  }

  function HexDigit(d: nat): char
    requires d < 16
  {
    if d < 10 then '0' + d as char else 'a' + (d - 10) as char
  }

  function Hex4(v: u16): (s: string)
    ensures |s| == 4
  {
    [HexDigit(v / 0x1000), HexDigit(v / 0x100 % 0x10), HexDigit(v / 0x10 % 0x10), HexDigit(v % 0x10)]
  }

  function VersionToString(v: u16): (s: string)
    ensures |s| == 2 || |s| == 4
  {
    if v == 0x0304 then "13"
    else if v == 0x0303 then "12"
    else if v == 0x0302 then "11"
    else if v == 0x0301 then "10"
    else Hex4(v)
  }

  method ResolveVersion(ch: Hello) returns (s: string)
    ensures s == VersionToString(Resolved(ch))
  {
    var versions := ch.extensions.known.supportedVersions;
    if |versions| > 0 {
      var highest: u16 := 0;
      for i := 0 to |versions|
        invariant highest == Highest(versions[..i])
      {
        var v := versions[i];
        assert versions[..i + 1][..i] == versions[..i];
        if !IsGrease(v) && v > highest {
          highest := v;
        }
      }
      assert versions[..|versions|] == versions;
      if highest > 0 {
        return VersionToString(highest);
      }
    }
    return VersionToString(ch.fixed.version);
  }

  predicate AddressChar(c: byte) {
    c == '.' as int || c == ':' as int || '0' as int <= c <= '9' as int
    || 'a' as int <= c <= 'f' as int || 'A' as int <= c <= 'F' as int
  }

  predicate OnlyAddressChars(name: seq<byte>) {
    forall i :: 0 <= i < |name| ==> AddressChar(name[i])
  }

  method IsIpAddress(name: seq<byte>) returns (r: bool)
    ensures r == OnlyAddressChars(name)
  {
    for i := 0 to |name|
      invariant OnlyAddressChars(name[..i])
    {
      if !AddressChar(name[i]) {
        return false;
      }
    }
    return true;
  }

  // ---------------------------------------------------------------- the fingerprint

  function Two(n: nat): (s: string)
    ensures |s| == 2
  {
    var m := if n > 99 then 99 else n;
    [HexDigit(m / 10), HexDigit(m % 10)]
  }

  /** Names shorter than two bytes count as no protocol. */
  function AlpnMark(names: seq<seq<byte>>): (s: string)
    ensures |s| == 2
  {
    if names == [] || |names[0]| < 2 then "00" else [names[0][0] as char, names[0][1] as char]
  }

  function SniMark(name: seq<byte>): char {
    if name != [] && !OnlyAddressChars(name) then 'd' else 'i'
  }

  function Hexes(vs: seq<u16>): (r: seq<string>)
    ensures |r| == |vs| && forall i :: 0 <= i < |vs| ==> r[i] == Hex4(vs[i])
  {
    if vs == [] then [] else [Hex4(vs[0])] + Hexes(vs[1..])
  }

  function HexList(vs: seq<u16>): string {
    Join(Hexes(Sorted(FilterGrease(vs))), ',')
  }

  function SectionA(ch: Hello): string {
    "t" + (VersionToString(Resolved(ch)) + ([SniMark(ch.extensions.known.serverName)]
      + (Two(|FilterGrease(ch.fixed.cipherSuites)|) + (Two(|FilterGrease(ch.extensions.ids)|)
      + AlpnMark(ch.extensions.known.alpnProtocols)))))
  }

  function HashedB(ch: Hello): string {
    HexList(ch.fixed.cipherSuites)
  }

  function HashedC(ch: Hello): string {
    HexList(ch.extensions.ids) + ("_" + HexList(ch.extensions.known.signatureAlgos))
  }

  function Ja4(sha: Sha, ch: Hello): string {
    SectionA(ch) + ("_" + (sha(HashedB(ch)) + ("_" + sha(HashedC(ch)))))
  }

  method Uint16ToHexStrings(vals: seq<u16>) returns (result: seq<string>)
    ensures result == Hexes(vals)
  {
    result := [];
    for i := 0 to |vals|
      invariant |result| == i && forall k :: 0 <= k < i ==> result[k] == Hex4(vals[k])
    {
      result := result + [Hex4(vals[i])];
    }
  }

  method SortedHexList(vals: seq<u16>) returns (s: string)
    ensures s == Join(Hexes(Sorted(vals)), ',')
  {
    var sorted := SortedCopy(vals);
    var hex := Uint16ToHexStrings(sorted);
    return Join(hex, ',');
  }

  method ComputeJa4(sha: Sha, ch: Hello) returns (r: string)
    ensures r == Ja4(sha, ch)
  {
    hide Join, Sorted, Highest, FilterGrease, Two, VersionToString, AlpnMark;
    var ver := ResolveVersion(ch);
    var sni := 'i';
    if ch.extensions.known.serverName != [] {
      var numeric := IsIpAddress(ch.extensions.known.serverName);
      if !numeric {
        sni := 'd';
      }
    }
    var ciphers := FilterGrease16(ch.fixed.cipherSuites);
    var extensions := FilterGrease16(ch.extensions.ids);
    var alpn := AlpnMark(ch.extensions.known.alpnProtocols);
    var sectionA := "t" + (ver + ([sni] + (Two(|ciphers|) + (Two(|extensions|) + alpn))));
    var cipherStr := SortedHexList(ciphers);
    var extStr := SortedHexList(extensions);
    var sigAlgos := FilterGrease16(ch.extensions.known.signatureAlgos);
    var sigStr := SortedHexList(sigAlgos);
    return sectionA + ("_" + (sha(cipherStr) + ("_" + sha(extStr + ("_" + sigStr)))));
  }

  // ---------------------------------------------------------------- what it depends on

  /** All that the fingerprint shows or hashes: the lists count as multisets without GREASE. */
  datatype Identity = Identity(version: string, sni: char, alpn: string,
                               ciphers: multiset<u16>, extensions: multiset<u16>, algos: multiset<u16>)

  function IdentityOf(ch: Hello): Identity {
    Identity(VersionToString(Resolved(ch)), SniMark(ch.extensions.known.serverName), AlpnMark(ch.extensions.known.alpnProtocols),
             multiset(FilterGrease(ch.fixed.cipherSuites)), multiset(FilterGrease(ch.extensions.ids)),
             multiset(FilterGrease(ch.extensions.known.signatureAlgos)))
  }

  lemma SameIdentitySameText(sha: Sha, a: Hello, b: Hello)
    requires IdentityOf(a) == IdentityOf(b)
    ensures Ja4(sha, a) == Ja4(sha, b)
  {
    hide Join, Sorted, FilterGrease, Two, VersionToString, AlpnMark;
    SortedSame(FilterGrease(a.fixed.cipherSuites), FilterGrease(b.fixed.cipherSuites));
    SortedSame(FilterGrease(a.extensions.ids), FilterGrease(b.extensions.ids));
    SortedSame(FilterGrease(a.extensions.known.signatureAlgos), FilterGrease(b.extensions.known.signatureAlgos));
    SameLength(FilterGrease(a.fixed.cipherSuites), FilterGrease(b.fixed.cipherSuites));
    SameLength(FilterGrease(a.extensions.ids), FilterGrease(b.extensions.ids));
  }

  lemma HexDigits(v: u16)
    ensures forall i :: 0 <= i < 4 ==> Hex4(v)[i] != ',' && Hex4(v)[i] != '_'
  {
  }

  lemma Nibbles(v: u16)
    ensures v == v / 0x1000 * 0x1000 + v / 0x100 % 0x10 * 0x100 + v / 0x10 % 0x10 * 0x10 + v % 0x10
  {
    assert v / 0x100 == v / 0x10 / 0x10;
    assert v / 0x1000 == v / 0x100 / 0x10;
  }

  lemma Hex4Unique(v: u16, w: u16)
    requires Hex4(v) == Hex4(w)
    ensures v == w
  {
    Hex4Digits(v);
    Hex4Digits(w);
    Nibbles(v);
    Nibbles(w);
  }

  function HexValue(c: char): int {
    if c <= '9' then c as int - '0' as int else c as int - 'a' as int + 10
  }

  lemma Hex4Digits(v: u16)
    ensures HexValue(Hex4(v)[0]) == v / 0x1000 && HexValue(Hex4(v)[1]) == v / 0x100 % 0x10
    ensures HexValue(Hex4(v)[2]) == v / 0x10 % 0x10 && HexValue(Hex4(v)[3]) == v % 0x10
  {
  }

  lemma {:induction false} JoinedUnderscore(parts: seq<string>)
    requires forall i :: 0 <= i < |parts| ==> '_' !in parts[i]
    ensures '_' !in Join(parts, ',')
    decreases |parts|
  {
    if |parts| > 1 {
      JoinedUnderscore(parts[1..]);
    }
  }

  lemma HexesAvoid(vs: seq<u16>)
    ensures forall i :: 0 <= i < |vs| ==> ',' !in Hexes(vs)[i] && '_' !in Hexes(vs)[i]
  {
    hide Hex4;
    forall i | 0 <= i < |vs| ensures ',' !in Hexes(vs)[i] && '_' !in Hexes(vs)[i] {
      HexDigits(vs[i]);
    }
  }

  lemma JoinedHexUnique(x: seq<u16>, y: seq<u16>)
    requires Join(Hexes(x), ',') == Join(Hexes(y), ',')
    ensures x == y
  {
    hide Hex4, Split;
    HexesAvoid(x);
    HexesAvoid(y);
    HexJoinEmpty(x);
    HexJoinEmpty(y);
    if x != [] {
      SplitJoin(Hexes(x), ',');
      SplitJoin(Hexes(y), ',');
      assert |Hexes(x)| == |Hexes(y)|;
      forall i | 0 <= i < |x| ensures x[i] == y[i] {
        assert Hexes(x)[i] == Hexes(y)[i];
        Hex4Unique(x[i], y[i]);
      }
    }
  }

  lemma HexJoinEmpty(x: seq<u16>)
    ensures Join(Hexes(x), ',') == "" <==> x == []
  {
    hide Hex4;
    if x != [] {
      assert Hexes(x)[0] == Hex4(x[0]);
    }
  }

  lemma HexListUnique(x: seq<u16>, y: seq<u16>)
    requires HexList(x) == HexList(y)
    ensures multiset(FilterGrease(x)) == multiset(FilterGrease(y))
  {
    hide Join, Hexes, Sorted;
    JoinedHexUnique(Sorted(FilterGrease(x)), Sorted(FilterGrease(y)));
    SortedSame(FilterGrease(x), FilterGrease(y));
  }

  lemma HashedCUnique(a: Hello, b: Hello)
    requires HashedC(a) == HashedC(b)
    ensures HexList(a.extensions.ids) == HexList(b.extensions.ids)
    ensures HexList(a.extensions.known.signatureAlgos) == HexList(b.extensions.known.signatureAlgos)
  {
    hide Join, Hexes, Sorted;
    HashedCSplits(a);
    HashedCSplits(b);
  }

  lemma HashedCSplits(ch: Hello)
    ensures Split(HashedC(ch), '_') == [HexList(ch.extensions.ids), HexList(ch.extensions.known.signatureAlgos)]
  {
    hide Hexes, Sorted, FilterGrease;
    var x, y := ch.extensions.ids, ch.extensions.known.signatureAlgos;
    HexesAvoid(Sorted(FilterGrease(x)));
    HexesAvoid(Sorted(FilterGrease(y)));
    JoinedUnderscore(Hexes(Sorted(FilterGrease(x))));
    JoinedUnderscore(Hexes(Sorted(FilterGrease(y))));
    var parts := [HexList(x), HexList(y)];
    assert parts[1..] == [HexList(y)];
    assert Join(parts[1..], '_') == HexList(y);
    SplitJoin(parts, '_');
  }

  /** The hash has twelve characters on both texts and does not collide on them. */
  ghost predicate Separates(sha: Sha, x: string, y: string) {
    |sha(x)| == 12 && |sha(y)| == 12 && (sha(x) == sha(y) ==> x == y)
  }

  lemma TailsMatch(a: string, b: string, x: string, y: string)
    requires |x| == |y| && a + x == b + y
    ensures a == b && x == y
  {
    assert |a| == |b|;
    assert (a + x)[..|a|] == a && (b + y)[..|b|] == b;
    assert (a + x)[|a|..] == x && (b + y)[|b|..] == y;
  }

  lemma HeadsMatch(a: string, b: string, x: string, y: string)
    requires |a| == |b| && a + x == b + y
    ensures a == b && x == y
  {
    assert |x| == |y|;
    TailsMatch(a, b, x, y);
  }

  lemma SectionsMatch(sha: Sha, a: Hello, b: Hello)
    requires Separates(sha, HashedB(a), HashedB(b)) && Separates(sha, HashedC(a), HashedC(b))
    requires Ja4(sha, a) == Ja4(sha, b)
    ensures SectionA(a) == SectionA(b) && HashedB(a) == HashedB(b) && HashedC(a) == HashedC(b)
  {
    hide SectionA, HashedB, HashedC;
    var x, y := sha(HashedB(a)) + ("_" + sha(HashedC(a))), sha(HashedB(b)) + ("_" + sha(HashedC(b)));
    TailsMatch(SectionA(a), SectionA(b), "_" + x, "_" + y);
    HeadsMatch("_", "_", x, y);
    HeadsMatch(sha(HashedB(a)), sha(HashedB(b)), "_" + sha(HashedC(a)), "_" + sha(HashedC(b)));
    HeadsMatch("_", "_", sha(HashedC(a)), sha(HashedC(b)));
  }

  lemma SectionAMatches(a: Hello, b: Hello)
    requires SectionA(a) == SectionA(b)
    ensures VersionToString(Resolved(a)) == VersionToString(Resolved(b))
    ensures SniMark(a.extensions.known.serverName) == SniMark(b.extensions.known.serverName)
    ensures AlpnMark(a.extensions.known.alpnProtocols) == AlpnMark(b.extensions.known.alpnProtocols)
  {
    hide VersionToString, Two, AlpnMark, SniMark, FilterGrease, Highest;
    var v, w := VersionToString(Resolved(a)), VersionToString(Resolved(b));
    var ca, cb := Two(|FilterGrease(a.fixed.cipherSuites)|), Two(|FilterGrease(b.fixed.cipherSuites)|);
    var ea := Two(|FilterGrease(a.extensions.ids)|) + AlpnMark(a.extensions.known.alpnProtocols);
    var eb := Two(|FilterGrease(b.extensions.ids)|) + AlpnMark(b.extensions.known.alpnProtocols);
    var sa, sb := [SniMark(a.extensions.known.serverName)], [SniMark(b.extensions.known.serverName)];
    HeadsMatch("t", "t", v + (sa + (ca + ea)), w + (sb + (cb + eb)));
    TailsMatch(v, w, sa + (ca + ea), sb + (cb + eb));
    HeadsMatch(sa, sb, ca + ea, cb + eb);
    assert sa[0] == sb[0];
    HeadsMatch(ca, cb, ea, eb);
    HeadsMatch(Two(|FilterGrease(a.extensions.ids)|), Two(|FilterGrease(b.extensions.ids)|),
      AlpnMark(a.extensions.known.alpnProtocols), AlpnMark(b.extensions.known.alpnProtocols));
  }

  /** Where the hash does not collide, two hellos have one fingerprint exactly when their identities are equal. */
  lemma SameTextExactly(sha: Sha, a: Hello, b: Hello)
    requires Separates(sha, HashedB(a), HashedB(b)) && Separates(sha, HashedC(a), HashedC(b))
    ensures Ja4(sha, a) == Ja4(sha, b) <==> IdentityOf(a) == IdentityOf(b)
  {
    hide SectionA, HexList, Ja4, FilterGrease, AlpnMark, SniMark, VersionToString;
    if IdentityOf(a) == IdentityOf(b) {
      SameIdentitySameText(sha, a, b);
    }
    if Ja4(sha, a) == Ja4(sha, b) {
      SectionsMatch(sha, a, b);
      SectionAMatches(a, b);
      HexListUnique(a.fixed.cipherSuites, b.fixed.cipherSuites);
      HashedCUnique(a, b);
      HexListUnique(a.extensions.ids, b.extensions.ids);
      HexListUnique(a.extensions.known.signatureAlgos, b.extensions.known.signatureAlgos);
    }
  }

  // ---------------------------------------------------------------- invariance

  /** `y` is `x` reordered, after any GREASE values were added to or taken out of either. */
  ghost predicate Shuffled(x: seq<u16>, y: seq<u16>) {
    forall v :: !IsGrease(v) ==> multiset(x)[v] == multiset(y)[v]
  }

  lemma ReorderingShuffles(x: seq<u16>, y: seq<u16>)
    requires multiset(x) == multiset(y)
    ensures Shuffled(x, y)
  {
  }

  lemma InsertingGreaseShuffles(x: seq<u16>, i: nat, g: u16)
    requires i <= |x| && IsGrease(g)
    ensures Shuffled(x, x[..i] + ([g] + x[i..]))
  {
    assert x == x[..i] + x[i..];
    assert multiset(x[..i] + ([g] + x[i..])) == multiset(x) + multiset{g};
  }

  lemma ShuffledSurvive(x: seq<u16>, y: seq<u16>)
    requires Shuffled(x, y)
    ensures multiset(FilterGrease(x)) == multiset(FilterGrease(y))
  {
    forall v: u16 ensures multiset(FilterGrease(x))[v] == multiset(FilterGrease(y))[v] {
      FilterCounts(x, v);
      FilterCounts(y, v);
    }
  }

  /**
   * Shuffling ciphers, extensions and signature algorithms, and adding GREASE to them or to the
   * supported versions, leaves the fingerprint as it is.
   */
  lemma Invariant(sha: Sha, a: Hello, b: Hello)
    requires Shuffled(a.fixed.cipherSuites, b.fixed.cipherSuites)
    requires Shuffled(a.extensions.ids, b.extensions.ids)
    requires Shuffled(a.extensions.known.signatureAlgos, b.extensions.known.signatureAlgos)
    requires Shuffled(a.extensions.known.supportedVersions, b.extensions.known.supportedVersions)
    requires a.fixed.version == b.fixed.version
    requires a.extensions.known.serverName == b.extensions.known.serverName
    requires AlpnMark(a.extensions.known.alpnProtocols) == AlpnMark(b.extensions.known.alpnProtocols)
    ensures Ja4(sha, a) == Ja4(sha, b)
  {
    hide Ja4;
    ShuffledSurvive(a.fixed.cipherSuites, b.fixed.cipherSuites);
    ShuffledSurvive(a.extensions.ids, b.extensions.ids);
    ShuffledSurvive(a.extensions.known.signatureAlgos, b.extensions.known.signatureAlgos);
    var x, y := a.extensions.known.supportedVersions, b.extensions.known.supportedVersions;
    forall v | !IsGrease(v) ensures v in x <==> v in y {
      assert v in multiset(x) <==> v in x;
      assert v in multiset(y) <==> v in y;
    }
    HighestSame(x, y);
    SameIdentitySameText(sha, a, b);
  }
}
