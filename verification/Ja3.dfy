/** The JA3 text written by the gateway and its reader in the request analyser. */
module Ja3 {
  import opened Bytes
  import opened ClientHello
  import opened Fingerprint
  import opened Numerals
  import opened Strings
  import opened Wrappers

  // ---------------------------------------------------------------- decimals

  function Decimals(vs: seq<nat>): (r: seq<string>)
    ensures |r| == |vs| && forall i :: 0 <= i < |vs| ==> r[i] == Decimal(vs[i])
  {
    if vs == [] then [] else [Decimal(vs[0])] + Decimals(vs[1..])
  }

  method Uint16ToStrings(vals: seq<u16>) returns (result: seq<string>)
    ensures result == Decimals(vals)
  {
    result := [];
    for i := 0 to |vals|
      invariant |result| == i && forall k :: 0 <= k < i ==> result[k] == Decimal(vals[k])
    {
      result := result + [Decimal(vals[i])];
    }
  }

  method Uint8ToStrings(vals: seq<byte>) returns (result: seq<string>)
    ensures result == Decimals(vals)
  {
    result := [];
    for i := 0 to |vals|
      invariant |result| == i && forall k :: 0 <= k < i ==> result[k] == Decimal(vals[k])
    {
      result := result + [Decimal(vals[i])];
    }
  }

  // ---------------------------------------------------------------- writer

  function List(vs: seq<nat>): string {
    Join(Decimals(vs), '-')
  }

  function Fields(ch: Hello): seq<string> {
    [Decimal(ch.fixed.version),
     List(FilterGrease(ch.fixed.cipherSuites)),
     List(FilterGrease(ch.extensions.ids)),
     List(FilterGrease(ch.extensions.known.supportedGroups)),
     List(ch.extensions.known.ecPointFormats)]
  }

  /** The text and its hash, with the hash function as a parameter. */
  method ComputeJa3(md5: string -> string, ch: Hello) returns (ja3: string, hash: string)
    ensures ja3 == Join(Fields(ch), ',') && hash == md5(ja3)
  {
    hide Join, Decimal, FilterGrease;
    var ciphers := FilterGrease16(ch.fixed.cipherSuites);
    var extensions := FilterGrease16(ch.extensions.ids);
    var groups := FilterGrease16(ch.extensions.known.supportedGroups);
    var formats := Uint8ToStrings(ch.extensions.known.ecPointFormats);
    var cs := Uint16ToStrings(ciphers);
    var es := Uint16ToStrings(extensions);
    var gs := Uint16ToStrings(groups);
    ja3 := Join([Decimal(ch.fixed.version), Join(cs, '-'), Join(es, '-'), Join(gs, '-'), Join(formats, '-')], ',');
    hash := md5(ja3);
  }

  // ---------------------------------------------------------------- reader

  datatype Parts = Parts(ver: string, ciphers: seq<real>, extensions: seq<real>, groups: seq<real>, formats: seq<real>)

  /** The language's conversion of a text to a number; none when the result is not finite. */
  type Number = string -> Option<real>

  function Numbers(num: Number, parts: seq<string>): seq<real> {
    if parts == [] then []
    else
      var rest := Numbers(num, parts[1..]);
      match num(parts[0]) case None => rest case Some(x) => [x] + rest
  }

  function ParseList(num: Number, s: string): seq<real> {
    if s == "" then [] else Numbers(num, Split(s, '-'))
  }

  function Part(p: seq<string>, k: nat): string {
    if k < |p| then p[k] else ""
  }

  function ParseJa3(num: Number, ja3: string): Option<Parts> {
    if ja3 == "" || |ja3| > 1000 then None
    else
      var p := Split(ja3, ',');
      if |p| < 2 then None
      else Some(Parts(p[0], ParseList(num, p[1]), ParseList(num, Part(p, 2)), ParseList(num, Part(p, 3)), ParseList(num, Part(p, 4))))
  }

  // ---------------------------------------------------------------- round trip

  /** On up to 15 digits alone the conversion is positional; a double holds these exactly. */
  ghost predicate ReadsDigits(num: Number) {
    forall s: string :: IsDigits(s) && |s| <= 15 ==> num(s) == Some(Positional(s) as real)
  }

  function Reals(vs: seq<nat>): seq<real> {
    if vs == [] then [] else [vs[0] as real] + Reals(vs[1..])
  }

  predicate Short(vs: seq<nat>) {
    forall i :: 0 <= i < |vs| ==> vs[i] < 0x1_0000
  }

  lemma {:induction false} NumbersOfDecimals(num: Number, vs: seq<nat>)
    requires ReadsDigits(num) && Short(vs)
    ensures Numbers(num, Decimals(vs)) == Reals(vs)
  {
    if vs != [] {
      hide ReadsDigits, Decimal;
      assert Decimals(vs)[1..] == Decimals(vs[1..]);
      NumberOfDecimal(num, vs[0]);
      NumbersOfDecimals(num, vs[1..]);
    }
  }

  lemma NumberOfDecimal(num: Number, n: nat)
    requires ReadsDigits(num) && n < 0x1_0000
    ensures num(Decimal(n)) == Some(n as real)
  {
    DecimalPositional(n);
    ShortDecimal(n);
  }

  lemma {:induction false} JoinAvoids(parts: seq<string>, sep: char, c: char)
    requires sep != c && forall i :: 0 <= i < |parts| ==> c !in parts[i]
    ensures c !in Join(parts, sep)
    decreases |parts|
  {
    if |parts| > 1 {
      JoinAvoids(parts[1..], sep, c);
    }
  }

  lemma DecimalsAvoid(vs: seq<nat>, c: char)
    requires !('0' <= c <= '9')
    ensures forall i :: 0 <= i < |vs| ==> Decimal(vs[i]) != "" && c !in Decimal(vs[i])
  {
    forall i | 0 <= i < |vs| ensures Decimal(vs[i]) != "" && c !in Decimal(vs[i]) {
      DecimalPositional(vs[i]);
    }
  }

  lemma ListAvoids(vs: seq<nat>)
    ensures ',' !in List(vs) && (List(vs) == "" <==> vs == [])
    ensures vs != [] ==> Split(List(vs), '-') == Decimals(vs)
  {
    hide Decimal;
    DecimalsAvoid(vs, '-');
    DecimalsAvoid(vs, ',');
    JoinAvoids(Decimals(vs), '-', ',');
    if vs != [] {
      SplitJoin(Decimals(vs), '-');
      assert Decimals(vs)[0] == Decimal(vs[0]) != "";
    }
  }

  lemma ListRead(num: Number, vs: seq<nat>)
    requires ReadsDigits(num) && Short(vs)
    ensures ParseList(num, List(vs)) == Reals(vs)
  {
    hide ReadsDigits, Decimal, List, Split;
    ListAvoids(vs);
    NumbersOfDecimals(num, vs);
  }

  lemma FieldsSplit(ch: Hello)
    ensures Split(Join(Fields(ch), ','), ',') == Fields(ch) && Join(Fields(ch), ',') != ""
  {
    hide Decimal, List, Split, FilterGrease;
    var v: nat := ch.fixed.version;
    DecimalsAvoid([v], ',');
    assert [v][0] == v;
    ListAvoids(FilterGrease(ch.fixed.cipherSuites));
    ListAvoids(FilterGrease(ch.extensions.ids));
    ListAvoids(FilterGrease(ch.extensions.known.supportedGroups));
    ListAvoids(ch.extensions.known.ecPointFormats);
    SplitJoin(Fields(ch), ',');
  }

  /** The version and the lists a fingerprint is about. */
  datatype Subject = Subject(version: nat, ciphers: seq<nat>, extensions: seq<nat>, groups: seq<nat>, formats: seq<nat>)

  function SubjectOf(ch: Hello): Subject {
    Subject(ch.fixed.version, FilterGrease(ch.fixed.cipherSuites), FilterGrease(ch.extensions.ids),
            FilterGrease(ch.extensions.known.supportedGroups), ch.extensions.known.ecPointFormats)
  }

  function AsParts(s: Subject): Parts {
    Parts(Decimal(s.version), Reals(s.ciphers), Reals(s.extensions), Reals(s.groups), Reals(s.formats))
  }

  /** The reader recovers everything the writer wrote, unless the text is over its length limit. */
  lemma RoundTrip(num: Number, ch: Hello)
    requires ReadsDigits(num)
    ensures var ja3 := Join(Fields(ch), ',');
      ParseJa3(num, ja3) == if |ja3| > 1000 then None else Some(AsParts(SubjectOf(ch)))
  {
    hide ReadsDigits, Decimal, Split, Join, List, FilterGrease, ParseList;
    FieldsSplit(ch);
    ListRead(num, FilterGrease(ch.fixed.cipherSuites));
    ListRead(num, FilterGrease(ch.extensions.ids));
    ListRead(num, FilterGrease(ch.extensions.known.supportedGroups));
    ListRead(num, ch.extensions.known.ecPointFormats);
  }

  lemma ListUnique(a: seq<nat>, b: seq<nat>)
    requires List(a) == List(b)
    ensures a == b
  {
    hide List, Decimal;
    ListAvoids(a);
    ListAvoids(b);
    if a != [] {
      assert |a| == |b| by {
        assert |Decimals(a)| == |Decimals(b)|;
      }
      forall i | 0 <= i < |a| ensures a[i] == b[i] {
        assert Decimals(a)[i] == Decimals(b)[i];
        DecimalPositional(a[i]);
        DecimalPositional(b[i]);
      }
    }
  }

  /** Two hellos have one JA3 text exactly when they agree on all it is about. */
  lemma SameTextExactly(a: Hello, b: Hello)
    ensures Join(Fields(a), ',') == Join(Fields(b), ',') <==> SubjectOf(a) == SubjectOf(b)
  {
    hide Join, Split, Decimal, List, FilterGrease;
    if Join(Fields(a), ',') == Join(Fields(b), ',') {
      FieldsSplit(a);
      FieldsSplit(b);
      assert Fields(a) == Fields(b);
      assert Decimal(a.fixed.version) == Fields(a)[0] == Fields(b)[0] == Decimal(b.fixed.version);
      DecimalPositional(a.fixed.version);
      DecimalPositional(b.fixed.version);
      assert Fields(a)[1] == Fields(b)[1] && Fields(a)[2] == Fields(b)[2] && Fields(a)[3] == Fields(b)[3] && Fields(a)[4] == Fields(b)[4];
      ListUnique(FilterGrease(a.fixed.cipherSuites), FilterGrease(b.fixed.cipherSuites));
      ListUnique(FilterGrease(a.extensions.ids), FilterGrease(b.extensions.ids));
      ListUnique(FilterGrease(a.extensions.known.supportedGroups), FilterGrease(b.extensions.known.supportedGroups));
      ListUnique(a.extensions.known.ecPointFormats, b.extensions.known.ecPointFormats);
    }
  }
}
