/** What the JA4 text says of a ClientHello, read back from its characters. */
module Ja4Text {
  import opened Bytes
  import opened ClientHello
  import opened Fingerprint
  import opened Ja4
  import opened Numerals
  import opened Sequences
  import opened Strings
  import opened Wrappers

  // ---------------------------------------------------------------- reading digits

  const HEX := "0123456789abcdef"

  /** Value of a hexadecimal digit: its place among the sixteen. */
  function HexRead(c: char): Option<nat> {
    if exists i :: 0 <= i < 16 && HEX[i] == c then
      var i :| 0 <= i < 16 && HEX[i] == c;
      HexPlace(c, i);
      Some(i)
    else None
  }

  lemma HexPlace(c: char, i: nat)
    requires i < 16 && HEX[i] == c
    ensures forall j :: 0 <= j < 16 && HEX[j] == c ==> j == i
  {
  }

  lemma HexPlaced(d: nat)
    requires d < 16
    ensures HexDigit(d) == HEX[d] && HexRead(HexDigit(d)) == Some(d)
  {
    HexPlace(HEX[d], d);
  }

  /** A text in base 16, if all its characters are digits. */
  function HexNumber(s: string): Option<nat> {
    if s == "" then Some(0)
    else
      match (HexNumber(s[..|s| - 1]), HexRead(s[|s| - 1]))
      case (Some(n), Some(d)) => Some(16 * n + d)
      case _ => None
  }

  lemma HexNumberNext(s: string, c: char)
    ensures HexNumber(s + [c]) == match (HexNumber(s), HexRead(c)) case (Some(n), Some(d)) => Some(16 * n + d) case _ => None
  {
    assert (s + [c])[..|s|] == s;
  }

  /** The four digits of a value read back to it. */
  lemma Hex4Read(v: u16)
    ensures HexNumber(Hex4(v)) == Some(v)
  {
    hide HexNumber, HexRead, HexDigit;
    var a, b, c, d := v / 0x1000, v / 0x100 % 0x10, v / 0x10 % 0x10, v % 0x10;
    HexPlaced(a);
    HexPlaced(b);
    HexPlaced(c);
    HexPlaced(d);
    NothingRead();
    HexNumberNext("", HexDigit(a));
    HexNumberNext([HexDigit(a)], HexDigit(b));
    HexNumberNext([HexDigit(a), HexDigit(b)], HexDigit(c));
    HexNumberNext([HexDigit(a), HexDigit(b), HexDigit(c)], HexDigit(d));
    assert "" + [HexDigit(a)] == [HexDigit(a)];
    assert [HexDigit(a)] + [HexDigit(b)] == [HexDigit(a), HexDigit(b)];
    assert [HexDigit(a), HexDigit(b)] + [HexDigit(c)] == [HexDigit(a), HexDigit(b), HexDigit(c)];
    assert [HexDigit(a), HexDigit(b), HexDigit(c)] + [HexDigit(d)] == Hex4(v);
    Nibbles(v);
  }

  lemma NothingRead()
    ensures HexNumber("") == Some(0)
  {
  }

  // ---------------------------------------------------------------- the version

  /** The highest offered version that is no GREASE, or the handshake version if none is offered. */
  ghost predicate IsVersion(ch: Hello, v: u16) {
    var offered := ch.extensions.known.supportedVersions;
    if exists w :: w in offered && !IsGrease(w) && w > 0 then
      v in offered && !IsGrease(v) && forall w :: w in offered && !IsGrease(w) ==> w <= v
    else v == ch.fixed.version
  }

  lemma VersionExactly(ch: Hello, v: u16)
    ensures IsVersion(ch, v) <==> v == Resolved(ch)
  {
    HighestBounds(ch.extensions.known.supportedVersions);
  }

  /** The text of a version: two digits for TLS 1.0 to 1.3, the four digits of its number otherwise. */
  predicate VersionText(s: string, v: u16) {
    && (s == "13" <==> v == 0x0304)
    && (s == "12" <==> v == 0x0303)
    && (s == "11" <==> v == 0x0302)
    && (s == "10" <==> v == 0x0301)
    && (s !in ["13", "12", "11", "10"] ==> |s| == 4 && HexNumber(s) == Some(v))
  }

  lemma VersionRead(v: u16)
    ensures VersionText(VersionToString(v), v)
  {
    hide HexNumber, Hex4;
    Hex4Read(v);
  }

  // ---------------------------------------------------------------- counts and marks

  /** How many values are no GREASE. */
  function Plainly(vs: seq<u16>): (n: nat)
    ensures n <= |vs|
  {
    if vs == [] then 0 else Plainly(vs[1..]) + if IsGrease(vs[0]) then 0 else 1
  }

  lemma {:induction false} FilterSize(vs: seq<u16>)
    ensures |FilterGrease(vs)| == Plainly(vs)
  {
    if vs != [] {
      FilterSize(vs[1..]);
    }
  }

  /** Two digits that read as the number, but 99 for anything above. */
  predicate CountText(s: string, n: nat) {
    |s| == 2 && IsDigits(s) && Positional(s) == if n < 99 then n else 99
  }

  lemma CountRead(n: nat)
    ensures CountText(Two(n), n)
  {
    var m := if n > 99 then 99 else n;
    assert Two(n)[..1] == [HexDigit(m / 10)] && [HexDigit(m / 10)][..0] == "";
    assert Positional([HexDigit(m / 10)]) == m / 10;
  }

  /** The first two bytes of the first protocol offered, if it has so many. */
  predicate ProtocolText(s: string, names: seq<seq<byte>>) {
    |s| == 2 &&
    if names != [] && |names[0]| >= 2 then s[0] as int == names[0][0] && s[1] as int == names[0][1] else s == "00"
  }

  /** Full stop, colon, digits, and the letters a to f in both cases, as ASCII codes. */
  predicate InAddress(c: byte) {
    c == 0x2E || c == 0x3A || 0x30 <= c <= 0x39 || 0x41 <= c <= 0x46 || 0x61 <= c <= 0x66
  }

  /** A name with a byte that is in no address. */
  predicate IsDomain(name: seq<byte>) {
    exists i :: 0 <= i < |name| && !InAddress(name[i])
  }

  lemma DomainExactly(name: seq<byte>)
    ensures SniMark(name) == 'd' <==> IsDomain(name)
    ensures SniMark(name) == 'i' <==> !IsDomain(name)
  {
  }

  // ---------------------------------------------------------------- the text

  /** The first section, piece by piece. */
  datatype Front = Front(version: string, name: char, ciphers: string, extensions: string, protocol: string)

  function FrontText(f: Front): string {
    "t" + f.version + [f.name] + f.ciphers + f.extensions + f.protocol
  }

  /** What the pieces of the first section say. */
  ghost predicate Says(f: Front, ch: Hello) {
    && (exists v: u16 :: IsVersion(ch, v) && VersionText(f.version, v))
    && (f.name == 'd' <==> IsDomain(ch.extensions.known.serverName)) && (f.name == 'i' <==> f.name != 'd')
    && CountText(f.ciphers, Plainly(ch.fixed.cipherSuites))
    && CountText(f.extensions, Plainly(ch.extensions.ids))
    && ProtocolText(f.protocol, ch.extensions.known.alpnProtocols)
  }

  /** Items behind each other that read as an ascending list of just these values without GREASE. */
  ghost predicate ListText(s: string, vs: seq<u16>) {
    exists us: seq<u16> ::
      Ascending(us) && Keeps(us, vs) && Items(s, us)
  }

  /** Every value that is no GREASE as often as in `vs`, and no GREASE. */
  ghost predicate Keeps(us: seq<u16>, vs: seq<u16>) {
    forall v: u16 :: multiset(us)[v] == if IsGrease(v) then 0 else multiset(vs)[v]
  }

  ghost predicate Items(s: string, us: seq<u16>) {
    if us == [] then s == ""
    else
      |Split(s, ',')| == |us| &&
      forall i :: 0 <= i < |us| ==> |Split(s, ',')[i]| == 4 && HexNumber(Split(s, ',')[i]) == Some(us[i])
  }

  lemma JoinedItems(us: seq<u16>)
    ensures Items(Join(Hexes(us), ','), us)
  {
    hide Hex4, HexNumber, Split;
    HexJoinEmpty(us);
    if us != [] {
      HexesAvoid(us);
      SplitJoin(Hexes(us), ',');
      forall i | 0 <= i < |us| ensures |Hexes(us)[i]| == 4 && HexNumber(Hexes(us)[i]) == Some(us[i]) {
        Hex4Read(us[i]);
      }
    }
  }

  lemma ListRead(vs: seq<u16>)
    ensures ListText(HexList(vs), vs)
  {
    hide Hexes, Join, Sorted, FilterGrease, Items, Ascending;
    var us := Sorted(FilterGrease(vs));
    SortedSorts(FilterGrease(vs));
    assert Keeps(us, vs) by {
      forall v: u16 ensures multiset(FilterGrease(vs))[v] == if IsGrease(v) then 0 else multiset(vs)[v] {
        FilterCounts(vs, v);
      }
    }
    JoinedItems(us);
  }

  lemma FrontRead(ch: Hello) returns (f: Front)
    ensures SectionA(ch) == FrontText(f) && Says(f, ch)
  {
    hide VersionToString, Resolved, Two, AlpnMark, SniMark, FilterGrease, IsVersion, VersionText, IsDomain, CountText, Plainly;
    var k := ch.extensions.known;
    var v := Resolved(ch);
    VersionExactly(ch, v);
    VersionRead(v);
    DomainExactly(k.serverName);
    FilterSize(ch.fixed.cipherSuites);
    FilterSize(ch.extensions.ids);
    CountRead(Plainly(ch.fixed.cipherSuites));
    CountRead(Plainly(ch.extensions.ids));
    ProtocolRead(k.alpnProtocols);
    MarkIsOne(k.serverName);
    f := Front(VersionToString(v), SniMark(k.serverName), Two(Plainly(ch.fixed.cipherSuites)), Two(Plainly(ch.extensions.ids)),
               AlpnMark(k.alpnProtocols));
  }

  lemma MarkIsOne(name: seq<byte>)
    ensures SniMark(name) == 'd' || SniMark(name) == 'i'
  {
  }

  lemma ProtocolRead(names: seq<seq<byte>>)
    ensures ProtocolText(AlpnMark(names), names)
  {
  }

  /**
   What the fingerprint of any hello says: its first section spells version, name mark, the two counts
   and the protocol, and the two hashes are of the ascending hexadecimal lists.
   */
  lemma TextRead(sha: Sha, ch: Hello) returns (f: Front, b: string, e: string, a: string)
    ensures Ja4.Ja4(sha, ch) == FrontText(f) + "_" + sha(b) + "_" + sha(e + "_" + a)
    ensures Says(f, ch)
    ensures ListText(b, ch.fixed.cipherSuites) && ListText(e, ch.extensions.ids) && ListText(a, ch.extensions.known.signatureAlgos)
  {
    hide SectionA, HexList, Says, FrontText, ListText;
    f := FrontRead(ch);
    b, e, a := HexList(ch.fixed.cipherSuites), HexList(ch.extensions.ids), HexList(ch.extensions.known.signatureAlgos);
    ListRead(ch.fixed.cipherSuites);
    ListRead(ch.extensions.ids);
    ListRead(ch.extensions.known.signatureAlgos);
    assert e + ("_" + a) == e + "_" + a;
  }
}
