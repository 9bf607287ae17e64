/** The ClientHello decoder against a serializer written from RFC 8446, RFC 6066 and RFC 7301. */
module ClientHelloWire {
  import opened Bytes
  import opened ClientHello

  // ---------------------------------------------------------------- the fixed part

  lemma AtShort(data: seq<byte>, p: nat, s: seq<byte>, t: seq<byte>)
    requires |s| < 0x100
    ensures At(data, p, Short(s) + t) <==>
            p < |data| && data[p] == |s| && At(data, p + 1, s) && At(data, p + 1 + |s|, t)
  {
    AtSplit(data, p, Short(s), t);
    AtByte(data, p, |s|, s);
  }

  /** The fixed part is decoded exactly when its encoding stands at the front of the data. */
  lemma FixedExactly(data: seq<byte>, x: Fixed, p: nat)
    ensures TakeFixed(data) == Ok((x, p)) <==> ValidFixed(x) && p == |EncFixed(x)| && At(data, 0, EncFixed(x))
  {
    hide At, U16, Enc16, EncAll16, Dec16s, EncFixed;
    if ValidFixed(x) {
      FixedFields(data, x);
    }
  }

  lemma FixedFields(data: seq<byte>, x: Fixed)
    requires ValidFixed(x)
    ensures var a := 35 + |x.sessionId|;
            var c := a + 2 + 2 * |x.cipherSuites|;
            var e := c + 1 + |x.compressionMethods|;
            |EncFixed(x)| == e &&
            (At(data, 0, EncFixed(x)) <==>
             e <= |data| && U16(data, 0) == x.version && data[2..34] == x.random && data[34] == |x.sessionId| &&
             data[35..a] == x.sessionId && U16(data, a) == 2 * |x.cipherSuites| &&
             Dec16s(data, a + 2, |x.cipherSuites|) == x.cipherSuites &&
             data[c] == |x.compressionMethods| && data[c + 1..e] == x.compressionMethods)
  {
    hide At, U16, Enc16, EncAll16, Dec16s;
    var a := 35 + |x.sessionId|;
    var c := a + 2 + 2 * |x.cipherSuites|;
    var t5 := Short(x.compressionMethods);
    var t4 := EncAll16(x.cipherSuites) + t5;
    var t3 := Enc16(2 * |x.cipherSuites|) + t4;
    var t2 := Short(x.sessionId) + t3;
    var t1 := x.random + t2;
    At16(data, 0, x.version, t1);
    AtSplit(data, 2, x.random, t2);
    AtShort(data, 34, x.sessionId, t3);
    At16(data, a, 2 * |x.cipherSuites|, t4);
    AtSplit(data, a + 2, EncAll16(x.cipherSuites), t5);
    AtAll16(data, a + 2, x.cipherSuites);
    AtShort(data, c, x.compressionMethods, []);
    assert t5 + [] == t5;
    AtMeans(data, 2, x.random);
    AtMeans(data, 35, x.sessionId);
    AtMeans(data, c + 1, x.compressionMethods);
    AtMeans(data, c + 1 + |x.compressionMethods|, []);
  }

  // ---------------------------------------------------------------- extension frames

  predicate ValidFrames(fs: seq<Frame>) {
    forall f :: f in fs ==> ValidFrame(f)
  }

  lemma FrameFields(data: seq<byte>, pos: nat, f: Frame, t: seq<byte>)
    requires ValidFrame(f)
    ensures At(data, pos, EncFrame(f) + t) <==>
            pos + 4 + |f.data| <= |data| && U16(data, pos) == f.id && U16(data, pos + 2) == |f.data| &&
            data[pos + 4..pos + 4 + |f.data|] == f.data && At(data, pos + 4 + |f.data|, t)
  {
    hide At, U16, Enc16;
    AtSplit(data, pos, EncFrame(f), t);
    At16(data, pos, f.id, Enc16(|f.data|) + f.data);
    At16(data, pos + 2, |f.data|, f.data);
    AtMeans(data, pos + 4, f.data);
  }

  /** The frames read from a block are exactly those whose encoding fills it up to where no frame follows. */
  ghost predicate FillsBlock(data: seq<byte>, pos: nat, end: nat, fs: seq<Frame>)
    requires pos <= end <= |data|
  {
    ValidFrames(fs) && At(data, pos, EncFrames(fs)) && pos + |EncFrames(fs)| <= end &&
    NoFrame(data, pos + |EncFrames(fs)|, end)
  }

  /** Reading the frames of a block yields a filling of it ... */
  lemma {:induction false} FramesFill(data: seq<byte>, pos: nat, end: nat)
    requires pos <= end <= |data|
    ensures FillsBlock(data, pos, end, Frames(data, pos, end))
    ensures FramesEnd(data, pos, end) == pos + |EncFrames(Frames(data, pos, end))|
    decreases end - pos
  {
    hide At, U16, Enc16, EncFrame;
    if NoFrame(data, pos, end) {
      AtMeans(data, pos, []);
    } else {
      var next := pos + 4 + U16(data, pos + 2);
      var f, rest := Frame(U16(data, pos), data[pos + 4..next]), Frames(data, next, end);
      FramesFill(data, next, end);
      FrameFields(data, pos, f, EncFrames(rest));
      assert Frames(data, pos, end) == [f] + rest;
      assert EncFrames([f] + rest) == EncFrame(f) + EncFrames(rest);
    }
  }

  /** ... and it is the only one. */
  lemma {:induction false} FillingUnique(data: seq<byte>, pos: nat, end: nat, fs: seq<Frame>)
    requires pos <= end <= |data| && FillsBlock(data, pos, end, fs)
    ensures Frames(data, pos, end) == fs
    decreases |fs|
  {
    hide At, U16, Enc16, EncFrame;
    if fs != [] {
      var f, rest := fs[0], fs[1..];
      assert fs == [f] + rest && ValidFrame(f);
      FrameFields(data, pos, f, EncFrames(rest));
      FillingUnique(data, pos + 4 + |f.data|, end, rest);
    }
  }

  // ---------------------------------------------------------------- extensions by meaning

  datatype Ext =
    | ServerName(host: seq<byte>)
    | StatusRequest(request: seq<byte>)
    | SupportedGroups(groups: seq<u16>)
    | EcPointFormats(formats: seq<byte>)
    | SignatureAlgorithms(algorithms: seq<u16>)
    | ProtocolNames(names: seq<seq<byte>>)
    | Padding(length: nat)
    | SupportedVersions(versions: seq<u16>)
    | RenegotiationInfo(info: seq<byte>)
    | Other(id: u16, data: seq<byte>)

  const KNOWN_IDS: set<u16> := {0x0000, 0x0005, 0x000a, 0x000b, 0x000d, 0x0010, 0x0015, 0x002b, 0xff01}

  function Id(e: Ext): u16 {
    match e
    case ServerName(_) => 0x0000
    case StatusRequest(_) => 0x0005
    case SupportedGroups(_) => 0x000a
    case EcPointFormats(_) => 0x000b
    case SignatureAlgorithms(_) => 0x000d
    case ProtocolNames(_) => 0x0010
    case Padding(_) => 0x0015
    case SupportedVersions(_) => 0x002b
    case RenegotiationInfo(_) => 0xff01
    case Other(id, _) => id
  }

  function EncNames(ns: seq<seq<byte>>): seq<byte>
    requires forall n :: n in ns ==> |n| < 0x100
  {
    if ns == [] then [] else Short(ns[0]) + EncNames(ns[1..])
  }

  predicate ValidExt(e: Ext) {
    match e
    case ServerName(host) => |host| + 5 < 0x1_0000
    case StatusRequest(request) => |request| < 0x1_0000
    case SupportedGroups(groups) => 2 * |groups| + 2 < 0x1_0000
    case EcPointFormats(formats) => |formats| < 0x100
    case SignatureAlgorithms(algorithms) => 2 * |algorithms| + 2 < 0x1_0000
    case ProtocolNames(names) => (forall n :: n in names ==> |n| < 0x100) && |EncNames(names)| + 2 < 0x1_0000
    case Padding(length) => length < 0x1_0000
    case SupportedVersions(versions) => 2 * |versions| < 0x100
    case RenegotiationInfo(info) => |info| < 0x1_0000
    case Other(id, data) => id !in KNOWN_IDS && |data| < 0x1_0000
  }

  /** Extension bodies: RFC 6066, section 3 (one host name), RFC 7301, section 3.1, RFC 8446, section 4.2. */
  function Body(e: Ext): seq<byte>
    requires ValidExt(e)
  {
    match e
    case ServerName(host) => Enc16(3 + |host|) + ([0] + (Enc16(|host|) + host))
    case StatusRequest(request) => request
    case SupportedGroups(groups) => Enc16(2 * |groups|) + EncAll16(groups)
    case EcPointFormats(formats) => Short(formats)
    case SignatureAlgorithms(algorithms) => Enc16(2 * |algorithms|) + EncAll16(algorithms)
    case ProtocolNames(names) => Enc16(|EncNames(names)|) + EncNames(names)
    case Padding(length) => seq(length, _ => 0)
    case SupportedVersions(versions) => [2 * |versions|] + EncAll16(versions)
    case RenegotiationInfo(info) => info
    case Other(_, data) => data
  }

  /** The decoded fields show the content of `e`. */
  predicate Carries(k: Known, e: Ext) {
    match e
    case ServerName(host) => k.serverName == host
    case StatusRequest(_) => k.hasStatusRequest
    case SupportedGroups(groups) => k.supportedGroups == groups && k.greaseGroups == CountGrease(groups)
    case EcPointFormats(formats) => k.ecPointFormats == formats
    case SignatureAlgorithms(algorithms) => k.signatureAlgos == algorithms
    case ProtocolNames(names) => k.alpnProtocols == names
    case Padding(length) => k.paddingLength == length
    case SupportedVersions(versions) => k.supportedVersions == versions
    case RenegotiationInfo(_) => k.hasRenegotiation
    case Other(_, _) => true
  }

  /** Fields without an extension among `ids` keep their empty values. */
  predicate EmptyOutside(k: Known, ids: set<u16>) {
    && (0x0000 !in ids ==> k.serverName == [])
    && (0x0005 !in ids ==> !k.hasStatusRequest)
    && (0x000a !in ids ==> k.supportedGroups == [] && k.greaseGroups == 0)
    && (0x000b !in ids ==> k.ecPointFormats == [])
    && (0x000d !in ids ==> k.signatureAlgos == [])
    && (0x0010 !in ids ==> k.alpnProtocols == [])
    && (0x0015 !in ids ==> k.paddingLength == 0)
    && (0x002b !in ids ==> k.supportedVersions == [])
    && (0xff01 !in ids ==> !k.hasRenegotiation)
  }

  lemma AtStart(data: seq<byte>)
    ensures At(data, 0, data)
  {
  }

  lemma Halve(n: nat)
    ensures 2 * n % 2 == 0 && 2 * n / 2 == n
  {
  }

  lemma List16Body(vs: seq<u16>)
    requires 2 * |vs| < 0x1_0000
    ensures List16(Enc16(2 * |vs|) + EncAll16(vs)) == vs
  {
    var data := Enc16(2 * |vs|) + EncAll16(vs);
    AtStart(data);
    hide At, Enc16, U16, EncAll16, Dec16s;
    At16(data, 0, 2 * |vs|, EncAll16(vs));
    AtAll16(data, 2, vs);
    Halve(|vs|);
  }

  lemma VersionsRead(data: seq<byte>, n: nat)
    requires 1 + 2 * n <= |data| && data[0] == 2 * n
    ensures Versions(data) == Dec16s(data, 1, n)
  {
    hide Dec16s;
    Halve(n);
  }

  lemma VersionsBody(vs: seq<u16>)
    requires 2 * |vs| < 0x100
    ensures Versions([2 * |vs|] + EncAll16(vs)) == vs
  {
    hide At, EncAll16, Dec16s, Versions;
    var data: seq<byte> := [2 * |vs|] + EncAll16(vs);
    AtStart(data);
    AtByte(data, 0, 2 * |vs|, EncAll16(vs));
    AtAll16(data, 1, vs);
    VersionsRead(data, |vs|);
  }

  lemma HostBody(host: seq<byte>)
    requires |host| + 5 < 0x1_0000
    ensures HostName(Enc16(3 + |host|) + ([0] + (Enc16(|host|) + host))) == host
  {
    var data := Enc16(3 + |host|) + ([0] + (Enc16(|host|) + host));
    AtStart(data);
    hide At, Enc16, U16;
    At16(data, 0, 3 + |host|, [0] + (Enc16(|host|) + host));
    AtByte(data, 2, 0, Enc16(|host|) + host);
    At16(data, 3, |host|, host);
    AtMeans(data, 5, host);
  }

  lemma {:induction false} NamesEncoded(data: seq<byte>, pos: nat, ns: seq<seq<byte>>)
    requires forall n :: n in ns ==> |n| < 0x100
    requires At(data, pos, EncNames(ns)) && pos + |EncNames(ns)| == |data|
    ensures Names(data, pos, |data|) == ns
    decreases |ns|
  {
    hide At;
    if ns != [] {
      assert ns == [ns[0]] + ns[1..];
      AtShort(data, pos, ns[0], EncNames(ns[1..]));
      AtMeans(data, pos + 1, ns[0]);
      NamesEncoded(data, pos + 1 + |ns[0]|, ns[1..]);
    }
  }

  lemma AlpnBody(ns: seq<seq<byte>>)
    requires (forall n :: n in ns ==> |n| < 0x100) && |EncNames(ns)| < 0x1_0000
    ensures Alpn(Enc16(|EncNames(ns)|) + EncNames(ns)) == ns
  {
    var names := EncNames(ns);
    var data := Enc16(|names|) + names;
    AtStart(data);
    At16(data, 0, |names|, names);
    assert data[2..] == names;
    AtStart(names);
    NamesEncoded(names, 0, ns);
  }

  lemma FormatsBody(formats: seq<byte>)
    requires |formats| < 0x100
    ensures List8(Short(formats)) == formats
  {
    assert ([|formats| as byte] + formats)[1..] == formats;
  }

  lemma BodyLength(e: Ext)
    requires ValidExt(e)
    ensures |Body(e)| < 0x1_0000
  {
  }

  /** Absorbing the serialized extension makes the fields carry it ... */
  lemma AbsorbsBody(k: Known, e: Ext)
    requires ValidExt(e)
    requires e.SupportedGroups? ==> k.greaseGroups == 0
    ensures Carries(AbsorbKnown(k, Frame(Id(e), Body(e))), e)
  {
    hide Enc16, EncAll16, EncNames, Short, Alpn, List16, List8, Versions, HostName, CountGrease;
    match e
    case EcPointFormats(formats) => FormatsBody(formats);
    case ServerName(host) => HostBody(host);
    case SupportedGroups(groups) => List16Body(groups);
    case SignatureAlgorithms(algorithms) => List16Body(algorithms);
    case ProtocolNames(names) => AlpnBody(names);
    case SupportedVersions(versions) => VersionsBody(versions);
    case _ =>
  }

  /** ... and leaves the fields of every other extension alone. */
  lemma AbsorbKeeps(k: Known, f: Frame, d: Ext)
    requires Id(d) != f.id && ValidExt(d)
    ensures Carries(AbsorbKnown(k, f), d) == Carries(k, d)
  {
    hide Alpn, List16, Versions, HostName, List8, CountGrease;
  }

  // ---------------------------------------------------------------- the whole extension list

  function Ids(fs: seq<Frame>): seq<u16> {
    seq(|fs|, i requires 0 <= i < |fs| => fs[i].id)
  }

  lemma {:induction false} AbsorbSnoc(e: Extensions, fs: seq<Frame>, f: Frame)
    ensures AbsorbAll(e, fs + [f]) == Absorb(AbsorbAll(e, fs), f)
    decreases |fs|
  {
    if fs == [] {
      assert [f][1..] == [];
      assert fs + [f] == [f];
    } else {
      assert (fs + [f])[1..] == fs[1..] + [f];
      AbsorbSnoc(Absorb(e, fs[0]), fs[1..], f);
    }
  }

  /** Decoded supported groups of one frame; other frames have none. */
  function GroupsOf(f: Frame): seq<u16> {
    if f.id == 0x000a then List16(f.data) else []
  }

  function GreaseInGroups(fs: seq<Frame>): nat {
    if fs == [] then 0 else GreaseInGroups(fs[..|fs| - 1]) + CountGrease(GroupsOf(fs[|fs| - 1]))
  }

  /** For any frames: ids in order, exact GREASE counts, empty fields for absent extensions. */
  lemma {:induction false} AbsorbedSummary(fs: seq<Frame>)
    ensures var e := AbsorbAll(NO_EXTENSIONS, fs);
            && e.ids == Ids(fs)
            && e.greaseIds == CountGrease(e.ids)
            && e.known.greaseGroups == GreaseInGroups(fs)
            && EmptyOutside(e.known, e.bodies.Keys)
    decreases |fs|
  {
    hide AbsorbKnown, GroupsOf, CountGrease;
    if fs == [] {
      NoFrames();
      NoGrease();
    } else {
      var pre, f := fs[..|fs| - 1], fs[|fs| - 1];
      assert fs == pre + [f];
      AbsorbedSummary(pre);
      AbsorbSnoc(NO_EXTENSIONS, pre, f);
      CountGreaseSnoc(Ids(pre), f.id);
      assert Ids(fs) == Ids(pre) + [f.id];
      AbsorbEmpty(AbsorbAll(NO_EXTENSIONS, pre).known, f, AbsorbAll(NO_EXTENSIONS, pre).bodies.Keys);
      AbsorbCounts(AbsorbAll(NO_EXTENSIONS, pre).known, f);
      assert AbsorbAll(NO_EXTENSIONS, fs).bodies.Keys == AbsorbAll(NO_EXTENSIONS, pre).bodies.Keys + {f.id};
    }
  }

  lemma AbsorbEmpty(k: Known, f: Frame, ids: set<u16>)
    requires EmptyOutside(k, ids)
    ensures EmptyOutside(AbsorbKnown(k, f), ids + {f.id})
  {
    hide List16, List8, Versions, Alpn, HostName, CountGrease;
  }

  lemma AbsorbCounts(k: Known, f: Frame)
    ensures AbsorbKnown(k, f).greaseGroups == k.greaseGroups + CountGrease(GroupsOf(f))
  {
    hide List16, List8, Versions, Alpn, HostName, CountGrease;
    NoGrease();
  }

  lemma NoGrease()
    ensures CountGrease([]) == 0
  {
  }

  /** `e` holds the body of frame `i`. */
  predicate HasBody(e: Extensions, f: Frame) {
    f.id in e.bodies && e.bodies[f.id] == f.data
  }

  /** For any frames: the map has exactly their ids, each with the body of its last occurrence. */
  lemma {:induction false} AbsorbedBodies(fs: seq<Frame>)
    ensures var e := AbsorbAll(NO_EXTENSIONS, fs);
            && (forall id :: id in e.bodies <==> id in Ids(fs))
            && (forall i :: 0 <= i < |fs| && (forall j :: i < j < |fs| ==> fs[j].id != fs[i].id) ==> HasBody(e, fs[i]))
    decreases |fs|
  {
    if fs == [] {
      NoFrames();
    } else {
      hide AbsorbKnown;
      var pre, f := fs[..|fs| - 1], fs[|fs| - 1];
      assert fs == pre + [f];
      AbsorbedBodies(pre);
      AbsorbSnoc(NO_EXTENSIONS, pre, f);
      assert Ids(fs) == Ids(pre) + [f.id];
      var e := AbsorbAll(NO_EXTENSIONS, pre);
      forall i | 0 <= i < |pre| && forall j :: i < j < |fs| ==> fs[j].id != fs[i].id
        ensures HasBody(Absorb(e, f), fs[i])
      {
        assert pre[i] == fs[i] && fs[|pre|] == f;
        assert forall j :: i < j < |pre| ==> pre[j] == fs[j];
        assert HasBody(e, pre[i]);
      }
    }
  }

  /**
   The group counter is the number of GREASE values in the reported groups exactly when the
   supported_groups extensions before the last one contain none.
   */
  lemma GroupCounterExact(pre: seq<Frame>, g: Frame, post: seq<Frame>)
    requires g.id == 0x000a && 0x000a !in Ids(post)
    ensures var k := AbsorbAll(NO_EXTENSIONS, pre + [g] + post).known;
            k.supportedGroups == List16(g.data) &&
            (k.greaseGroups == CountGrease(k.supportedGroups) <==> GreaseInGroups(pre) == 0)
    decreases |post|
  {
    hide List16, List8, Versions, Alpn, HostName, CountGrease;
    if post == [] {
      assert pre + [g] + post == pre + [g];
      assert (pre + [g])[..|pre|] == pre;
      AbsorbedSummary(pre + [g]);
      AbsorbSnoc(NO_EXTENSIONS, pre, g);
    } else {
      var init, f := post[..|post| - 1], post[|post| - 1];
      assert Ids(post)[|post| - 1] == f.id;
      forall id | id in Ids(init) ensures id in Ids(post) {
        var i :| 0 <= i < |init| && Ids(init)[i] == id;
        assert Ids(post)[i] == id;
      }
      GroupCounterExact(pre, g, init);
      assert pre + [g] + post == (pre + [g] + init) + [f];
      AbsorbSnoc(NO_EXTENSIONS, pre + [g] + init, f);
    }
  }

  predicate Distinct(es: seq<Ext>) {
    forall i, j :: 0 <= i < j < |es| ==> Id(es[i]) != Id(es[j])
  }

  function ToFrames(es: seq<Ext>): (fs: seq<Frame>)
    requires forall e :: e in es ==> ValidExt(e)
    ensures |fs| == |es| && forall i :: 0 <= i < |es| ==> fs[i] == Frame(Id(es[i]), Body(es[i]))
  {
    seq(|es|, i requires 0 <= i < |es| => Frame(Id(es[i]), Body(es[i])))
  }

  lemma FreshGroups(pre: seq<Ext>, e: Ext)
    requires (forall d :: d in pre ==> ValidExt(d)) && Distinct(pre + [e]) && e.SupportedGroups?
    ensures AbsorbAll(NO_EXTENSIONS, ToFrames(pre)).known.greaseGroups == 0
  {
    hide AbsorbAll, ValidExt, Body;
    AbsorbedSummary(ToFrames(pre));
    AbsorbedBodies(ToFrames(pre));
    var es := pre + [e];
    forall i | 0 <= i < |pre| ensures Ids(ToFrames(pre))[i] != Id(e) {
      assert Id(es[i]) != Id(es[|pre|]);
    }
  }

  lemma {:induction false} CarriesAll(es: seq<Ext>)
    requires (forall e :: e in es ==> ValidExt(e)) && Distinct(es)
    ensures forall e :: e in es ==> Carries(AbsorbAll(NO_EXTENSIONS, ToFrames(es)).known, e)
    decreases |es|
  {
    if es != [] {
      hide Body, AbsorbKnown, Carries, Ids;
      var pre, e := es[..|es| - 1], es[|es| - 1];
      var fs, f := ToFrames(pre), Frame(Id(e), Body(e));
      assert ToFrames(es) == fs + [f];
      CarriesAll(pre);
      AbsorbSnoc(NO_EXTENSIONS, fs, f);
      var k := AbsorbAll(NO_EXTENSIONS, fs).known;
      if e.SupportedGroups? {
        assert pre + [e] == es;
        FreshGroups(pre, e);
      }
      AbsorbsBody(k, e);
      forall d | d in pre ensures Carries(AbsorbKnown(k, f), d) {
        AbsorbKeeps(k, f, d);
      }
    }
  }

  // ---------------------------------------------------------------- the whole message

  /** A ClientHello message; without `block` it ends after the compression methods. */
  datatype Message = Message(fixed: Fixed, extensions: seq<Ext>, block: bool)

  function EncBlock(fs: seq<Frame>): seq<byte>
    requires ValidFrames(fs) && |EncFrames(fs)| < 0x1_0000
  {
    Enc16(|EncFrames(fs)|) + EncFrames(fs)
  }

  function EncHandshake(body: seq<byte>): seq<byte>
    requires |body| < 0x100_0000
  {
    [0x01] + (Enc24(|body|) + body)
  }

  lemma ToFramesValid(es: seq<Ext>)
    requires forall e :: e in es ==> ValidExt(e)
    ensures ValidFrames(ToFrames(es))
  {
    forall f | f in ToFrames(es) ensures ValidFrame(f) {
      var i :| 0 <= i < |es| && f == ToFrames(es)[i];
      BodyLength(es[i]);
    }
  }

  predicate WellFormed(m: Message) {
    && ValidFixed(m.fixed)
    && (forall e :: e in m.extensions ==> ValidExt(e))
    && Distinct(m.extensions)
    && (!m.block ==> m.extensions == [])
    && (ToFramesValid(m.extensions); |EncFrames(ToFrames(m.extensions))| < 0x1_0000)
  }

  function EncBody(m: Message): seq<byte>
    requires WellFormed(m)
  {
    ToFramesValid(m.extensions);
    EncFixed(m.fixed) + if m.block then EncBlock(ToFrames(m.extensions)) else []
  }

  /** Handshake header and bounds, as the decoder checks them. */
  lemma HandshakeHeader(recordHeader: seq<byte>, body: seq<byte>, tail: seq<byte>)
    requires |recordHeader| >= 3 && |body| < 0x100_0000
    ensures Parse(recordHeader, EncHandshake(body) + tail) == ParseBody(U16(recordHeader, 1), body)
  {
    var payload := EncHandshake(body) + tail;
    AtStart(payload);
    assert payload == [0x01] + (Enc24(|body|) + (body + tail));
    hide At, Enc24, U24, ParseBody;
    AtByte(payload, 0, 0x01, Enc24(|body|) + (body + tail));
    At24(payload, 1, |body|, body + tail);
    AtSplit(payload, 4, body, tail);
    AtMeans(payload, 4, body);
  }

  /** A message cut short is reported as too short for its header, or for the length it announces. */
  lemma MessageCut(recordHeader: seq<byte>, body: seq<byte>, n: nat)
    requires |recordHeader| >= 3 && |body| < 0x100_0000 && n < 4 + |body|
    ensures |EncHandshake(body)| == 4 + |body|
    ensures Parse(recordHeader, EncHandshake(body)[..n]) == Err(if n < 4 then PayloadTooShort else TruncatedHello)
  {
    hide At, Enc24, ParseBody;
    var full := EncHandshake(body);
    AtStart(full);
    AtByte(full, 0, 0x01, Enc24(|body|) + body);
    At24(full, 1, |body|, body);
    assert n >= 4 ==> full[..n][1..4] == full[1..4];
  }

  /** A message of any other type is reported with that type. */
  lemma OtherMessage(recordHeader: seq<byte>, payload: seq<byte>)
    requires |recordHeader| >= 3 && |payload| >= 4
    ensures Parse(recordHeader, payload) == Err(NotClientHello(payload[0])) <==> payload[0] != 1
  {
    hide ParseBody, U24;
    if payload[0] == 1 && |payload| - 4 >= U24(payload, 1) {
      BodyError(U16(recordHeader, 1), payload[4..4 + U24(payload, 1)], payload[0]);
    }
  }

  lemma BodyError(version: u16, data: seq<byte>, b: byte)
    ensures ParseBody(version, data) != Err(NotClientHello(b))
  {
  }

  /** The fixed part cut short anywhere is reported by the field the cut is in. */
  lemma FixedCut(x: Fixed, n: nat)
    requires ValidFixed(x) && n < |EncFixed(x)|
    ensures var a := 35 + |x.sessionId|;
            var c := a + 2 + 2 * |x.cipherSuites|;
            TakeFixed(EncFixed(x)[..n]) == Err(
              if n < 2 then TruncatedVersion
              else if n < 34 then TruncatedRandom
              else if n < 35 then TruncatedSessionIdLength
              else if n < a then TruncatedSessionId
              else if n < a + 2 then TruncatedCipherLength
              else if n < c then TruncatedCiphers
              else if n < c + 1 then TruncatedCompressionLength
              else TruncatedCompression)
  {
    hide At, EncFixed, Dec16s;
    var full := EncFixed(x);
    var data := full[..n];
    AtWhole(full);
    FixedFields(full, x);
    var a := 35 + |x.sessionId|;
    assert n >= a + 2 ==> U16(data, a) == U16(full, a);
  }

  lemma AtWhole(s: seq<byte>)
    ensures At(s, 0, s)
  {
  }

  /** Reading the extension block undoes writing it. */
  lemma BlockDecoded(x: Fixed, fs: seq<Frame>)
    requires ValidFixed(x) && ValidFrames(fs) && |EncFrames(fs)| < 0x1_0000
    ensures ParseExtensions(EncFixed(x) + EncBlock(fs), |EncFixed(x)|) == Ok(AbsorbAll(NO_EXTENSIONS, fs))
  {
    hide *;
    var data, p := EncFixed(x) + EncBlock(fs), |EncFixed(x)|;
    AtStart(data);
    AtSplit(data, 0, EncFixed(x), EncBlock(fs));
    BlockAt(data, p, fs);
    WholeBlock(data, p, fs);
  }

  lemma WholeBlock(data: seq<byte>, p: nat, fs: seq<Frame>)
    requires ValidFrames(fs) && |EncFrames(fs)| < 0x1_0000
    requires p + 2 <= |data| && U16(data, p) == |EncFrames(fs)| && At(data, p + 2, EncFrames(fs))
    requires p + 2 + |EncFrames(fs)| == |data|
    ensures ParseExtensions(data, p) == Ok(AbsorbAll(NO_EXTENSIONS, fs))
  {
    hide At, EncFrames, U16, AbsorbAll, Frames;
    FillingUnique(data, p + 2, |data|, fs);
  }

  lemma BlockAt(data: seq<byte>, p: nat, fs: seq<Frame>)
    requires ValidFrames(fs) && |EncFrames(fs)| < 0x1_0000
    ensures At(data, p, EncBlock(fs)) <==>
            p + 2 <= |data| && U16(data, p) == |EncFrames(fs)| && At(data, p + 2, EncFrames(fs))
    ensures |EncBlock(fs)| == 2 + |EncFrames(fs)|
  {
    hide At, Enc16, U16;
    At16(data, p, |EncFrames(fs)|, EncFrames(fs));
  }

  /**
   Main result: the decoder undoes the serializer. Whatever follows the message, every well-formed
   ClientHello with distinct extension types is returned with all its content and true GREASE counts.
   */
  lemma RoundTrip(recordHeader: seq<byte>, m: Message, tail: seq<byte>)
    requires |recordHeader| >= 3 && WellFormed(m) && |EncBody(m)| < 0x100_0000
    ensures var r := Parse(recordHeader, EncHandshake(EncBody(m)) + tail);
            r.Ok? &&
            var ch, e := r.value, r.value.extensions;
            && ch.recordVersion == U16(recordHeader, 1)
            && ch.fixed == m.fixed
            && |e.ids| == |m.extensions|
            && (forall i :: 0 <= i < |e.ids| ==> e.ids[i] == Id(m.extensions[i]))
            && (forall id :: id in e.bodies <==> id in e.ids)
            && (forall x :: x in m.extensions ==> HasBody(e, Frame(Id(x), Body(x))) && Carries(e.known, x))
            && EmptyOutside(e.known, e.bodies.Keys)
            && e.greaseIds == CountGrease(e.ids)
  {
    hide At, EncFixed, EncFrames, U16, AbsorbAll, Frames, Carries, EmptyOutside, Body, CountGrease, TakeFixed;
    ToFramesValid(m.extensions);
    var fs := ToFrames(m.extensions);
    var body := EncBody(m);
    HandshakeHeader(recordHeader, body, tail);
    AtStart(body);
    AtSplit(body, 0, EncFixed(m.fixed), if m.block then EncBlock(fs) else []);
    FixedExactly(body, m.fixed, |EncFixed(m.fixed)|);
    if m.block {
      BlockDecoded(m.fixed, fs);
    } else {
      NoFrames();
    }
    AbsorbedSummary(fs);
    CarriesAll(m.extensions);
    AbsorbedBodies(fs);
    var e := AbsorbAll(NO_EXTENSIONS, fs);
    forall x | x in m.extensions ensures HasBody(e, Frame(Id(x), Body(x))) {
      var i :| 0 <= i < |m.extensions| && m.extensions[i] == x;
      assert fs[i] == Frame(Id(x), Body(x));
    }
  }

  lemma NoFrames()
    ensures AbsorbAll(NO_EXTENSIONS, []) == NO_EXTENSIONS
  {
  }

  // ---------------------------------------------------------------- arbitrary input

  /** The hello inside a handshake message with the declared length available. */
  predicate Framed(payload: seq<byte>) {
    |payload| >= 4 && payload[0] == 0x01 && 4 + U24(payload, 1) <= |payload|
  }

  function HelloBytes(payload: seq<byte>): seq<byte>
    requires Framed(payload)
  {
    payload[4..4 + U24(payload, 1)]
  }

  /** Where the extension block of an accepted hello ends, by its declared length. */
  predicate HasBlock(data: seq<byte>, p: nat) {
    p + 2 <= |data| && p + 2 + U16(data, p) <= |data|
  }

  function BlockFrames(data: seq<byte>, p: nat): seq<Frame>
    requires HasBlock(data, p)
  {
    Frames(data, p + 2, p + 2 + U16(data, p))
  }

  /** Bytes of the hello from position `p` on that no decoded field represents. */
  function Dropped(data: seq<byte>, p: nat): seq<byte>
    requires p <= |data|
  {
    if HasBlock(data, p) then data[FramesEnd(data, p + 2, p + 2 + U16(data, p))..] else data[p..]
  }

  lemma BlockTotal(data: seq<byte>, p: nat)
    requires HasBlock(data, p)
    ensures var fs := BlockFrames(data, p);
            ValidFrames(fs) && |EncFrames(fs)| <= U16(data, p) &&
            p + 2 + |EncFrames(fs)| + |Dropped(data, p)| == |data| &&
            (Dropped(data, p) == [] ==> data[p..p + 2] == Enc16(|EncFrames(fs)|))
  {
    hide U16, EncFrames, At, Frames, Enc16;
    FramesFill(data, p + 2, p + 2 + U16(data, p));
    Enc16Unique(data, p);
  }

  /**
   Whatever bytes are accepted: the fixed part re-encodes to the front of the hello, the extensions
   re-encode to the bytes behind the declared block length, and only the dropped bytes are missing.
   */
  lemma AcceptedShape(recordHeader: seq<byte>, payload: seq<byte>)
    requires |recordHeader| >= 3 && Parse(recordHeader, payload).Ok?
    ensures Framed(payload)
    ensures var ch, data := Parse(recordHeader, payload).value, HelloBytes(payload);
            ch.recordVersion == U16(recordHeader, 1) && ValidFixed(ch.fixed) && |EncFixed(ch.fixed)| <= |data| &&
            var p := |EncFixed(ch.fixed)|;
            if HasBlock(data, p) then
              var fs := BlockFrames(data, p);
              ValidFrames(fs) && ch.extensions == AbsorbAll(NO_EXTENSIONS, fs) &&
              data == EncFixed(ch.fixed) + (data[p..p + 2] + (EncFrames(fs) + Dropped(data, p)))
            else
              |Dropped(data, p)| < 2 && ch.extensions == NO_EXTENSIONS && data == EncFixed(ch.fixed) + Dropped(data, p)
  {
    hide EncFixed, TakeFixed, Frames, AbsorbAll, At, U16;
    var data := HelloBytes(payload);
    var (x, p) := TakeFixed(data).value;
    FixedExactly(data, x, p);
    AtMeans(data, 0, EncFixed(x));
    assert data == data[0..p] + data[p..];
    if HasBlock(data, p) {
      BlockShape(data, p);
    }
  }

  lemma BlockShape(data: seq<byte>, p: nat)
    requires HasBlock(data, p)
    ensures var fs := BlockFrames(data, p);
            ValidFrames(fs) && data[p..] == data[p..p + 2] + (EncFrames(fs) + Dropped(data, p))
  {
    hide U16, EncFrames, At, Frames;
    var end := p + 2 + U16(data, p);
    FramesFill(data, p + 2, end);
    var q := FramesEnd(data, p + 2, end);
    AtMeans(data, p + 2, EncFrames(Frames(data, p + 2, end)));
    assert data[p..] == data[p..p + 2] + (data[p + 2..q] + data[q..]);
  }

  // ---------------------------------------------------------------- writing out what was accepted

  /** The extensions as a decoded hello holds them: the ids in order, each with its one stored body. */
  function StoredFrames(e: Extensions): seq<Frame>
    requires forall i :: 0 <= i < |e.ids| ==> e.ids[i] in e.bodies
  {
    seq(|e.ids|, i requires 0 <= i < |e.ids| => Frame(e.ids[i], e.bodies[e.ids[i]]))
  }

  /** Every length fits the field in front of it. */
  predicate Writable(ch: Hello) {
    && ValidFixed(ch.fixed)
    && (forall i :: 0 <= i < |ch.extensions.ids| ==> ch.extensions.ids[i] in ch.extensions.bodies)
    && ValidFrames(StoredFrames(ch.extensions))
    && |EncFrames(StoredFrames(ch.extensions))| < 0x1_0000
  }

  /** A decoded hello written out from its fields alone; without extensions it ends after the fixed part. */
  function Reserialize(ch: Hello): seq<byte>
    requires Writable(ch)
  {
    EncFixed(ch.fixed) + if ch.extensions.ids == [] then [] else EncBlock(StoredFrames(ch.extensions))
  }

  /** Extensions of one type have one body. */
  predicate OneBodyPerId(fs: seq<Frame>) {
    forall i, j :: 0 <= i < j < |fs| && fs[i].id == fs[j].id ==> fs[i].data == fs[j].data
  }

  lemma {:induction false} LastOfId(fs: seq<Frame>, i: nat) returns (j: nat)
    requires i < |fs|
    ensures i <= j < |fs| && fs[j].id == fs[i].id && forall k :: j < k < |fs| ==> fs[k].id != fs[i].id
    decreases |fs| - i
  {
    j := i;
    if k :| i < k < |fs| && fs[k].id == fs[i].id {
      j := LastOfId(fs, k);
    }
  }

  /** Each stored body is that of some frame of its id, and of every frame if its id has one body. */
  lemma StoredBody(fs: seq<Frame>, i: nat)
    requires i < |fs|
    ensures var e := AbsorbAll(NO_EXTENSIONS, fs);
            fs[i].id in e.bodies && (OneBodyPerId(fs) ==> e.bodies[fs[i].id] == fs[i].data)
  {
    hide AbsorbAll;
    AbsorbedBodies(fs);
    var j := LastOfId(fs, i);
    assert HasBody(AbsorbAll(NO_EXTENSIONS, fs), fs[j]);
  }

  lemma StoredIds(fs: seq<Frame>)
    ensures var e := AbsorbAll(NO_EXTENSIONS, fs);
            |e.ids| == |fs| && forall i :: 0 <= i < |fs| ==> e.ids[i] == fs[i].id && e.ids[i] in e.bodies
  {
    hide AbsorbAll, CountGrease, OneBodyPerId;
    AbsorbedSummary(fs);
    forall i | 0 <= i < |fs| ensures fs[i].id in AbsorbAll(NO_EXTENSIONS, fs).bodies {
      StoredBody(fs, i);
    }
  }

  /** What is stored are the frames that were read exactly when no type came with two bodies. */
  lemma StoredExactly(fs: seq<Frame>)
    ensures var e := AbsorbAll(NO_EXTENSIONS, fs);
            && (forall i :: 0 <= i < |e.ids| ==> e.ids[i] in e.bodies)
            && |e.ids| == |fs|
            && (StoredFrames(e) == fs <==> OneBodyPerId(fs))
  {
    hide AbsorbAll;
    StoredIds(fs);
    var e := AbsorbAll(NO_EXTENSIONS, fs);
    var gs := StoredFrames(e);
    if OneBodyPerId(fs) {
      hide OneBodyPerId;
      forall i | 0 <= i < |fs| ensures gs[i] == fs[i] {
        StoredBody(fs, i);
      }
    }
    if gs == fs {
      forall i, j | 0 <= i < j < |fs| && fs[i].id == fs[j].id ensures fs[i].data == fs[j].data {
        assert gs[i].data == e.bodies[fs[i].id] == gs[j].data;
      }
    }
  }

  /** A block of frames is the rest of the data exactly when these are the frames read and nothing is dropped. */
  lemma BlockExactly(data: seq<byte>, p: nat, gs: seq<Frame>)
    requires HasBlock(data, p) && ValidFrames(gs) && |EncFrames(gs)| < 0x1_0000
    ensures data[p..] == EncBlock(gs) <==> BlockFrames(data, p) == gs && Dropped(data, p) == []
  {
    hide U16, Enc16, EncFrames, At, Frames;
    var end := p + 2 + U16(data, p);
    FramesFill(data, p + 2, end);
    BlockAt(data, p, gs);
    AtMeans(data, p, EncBlock(gs));
    if data[p..] == EncBlock(gs) {
      assert data[p..p + |EncBlock(gs)|] == data[p..];
      FillingUnique(data, p + 2, end, gs);
    }
    if BlockFrames(data, p) == gs && Dropped(data, p) == [] {
      assert data[p..p + |EncBlock(gs)|] == data[p..];
    }
  }

  /** The frames a hello's extensions come from: those of its block, or none. */
  predicate ReadFrom(e: Extensions, data: seq<byte>, p: nat) {
    if HasBlock(data, p) then e == AbsorbAll(NO_EXTENSIONS, BlockFrames(data, p)) else e == NO_EXTENSIONS
  }

  /** Nothing is dropped, no type has two bodies, and there is no empty block. */
  ghost predicate Faithful(data: seq<byte>, p: nat)
    requires p <= |data|
  {
    Dropped(data, p) == [] && (HasBlock(data, p) ==> BlockFrames(data, p) != [] && OneBodyPerId(BlockFrames(data, p)))
  }

  lemma BlockRewritten(ch: Hello, data: seq<byte>, p: nat)
    requires ValidFixed(ch.fixed) && HasBlock(data, p) && ReadFrom(ch.extensions, data, p)
    ensures Writable(ch) && ch.extensions.ids != [] && data[p..] == EncBlock(StoredFrames(ch.extensions)) <==> Faithful(data, p)
  {
    hide U16, EncFrames, AbsorbAll, Dropped, Frames, OneBodyPerId, EncBlock;
    var fs := BlockFrames(data, p);
    BlockTotal(data, p);
    StoredExactly(fs);
    if Writable(ch) {
      BlockExactly(data, p, StoredFrames(ch.extensions));
    }
    if OneBodyPerId(fs) {
      assert StoredFrames(ch.extensions) == fs;
      BlockExactly(data, p, fs);
    }
  }

  lemma BodyRewritten(ch: Hello, data: seq<byte>, p: nat)
    requires ValidFixed(ch.fixed) && p == |EncFixed(ch.fixed)| <= |data| && data[..p] == EncFixed(ch.fixed)
    requires ReadFrom(ch.extensions, data, p)
    ensures Writable(ch) && Reserialize(ch) == data <==> Faithful(data, p)
  {
    hide EncFixed, AbsorbAll, EncFrames, BlockFrames, OneBodyPerId, EncBlock, U16;
    assert data == EncFixed(ch.fixed) + data[p..];
    if HasBlock(data, p) {
      hide Dropped;
      BlockRewritten(ch, data, p);
      SameTail(EncFixed(ch.fixed), data[p..], data[p..]);
      if Writable(ch) && ch.extensions.ids != [] {
        SameTail(EncFixed(ch.fixed), EncBlock(StoredFrames(ch.extensions)), data[p..]);
      }
    } else {
      EmptyWritten(ch);
    }
  }

  lemma EmptyWritten(ch: Hello)
    requires ValidFixed(ch.fixed) && ch.extensions == NO_EXTENSIONS
    ensures Writable(ch) && Reserialize(ch) == EncFixed(ch.fixed)
  {
    hide EncFixed;
  }

  lemma SameTail(a: seq<byte>, b: seq<byte>, c: seq<byte>)
    ensures a + b == a + c <==> b == c
  {
    assert (a + b)[|a|..] == b && (a + c)[|a|..] == c;
  }

  /**
   For every accepted input, writing out the decoded hello from its own fields gives a prefix of the
   input if and only if nothing was dropped, no extension type came with two different bodies, and
   the input has no empty extension block.
   */
  lemma ReserializedPrefix(recordHeader: seq<byte>, payload: seq<byte>)
    requires |recordHeader| >= 3 && Parse(recordHeader, payload).Ok?
    ensures Framed(payload)
    ensures var ch, data := Parse(recordHeader, payload).value, HelloBytes(payload);
            |EncFixed(ch.fixed)| <= |data| &&
            (Writable(ch) && |Reserialize(ch)| < 0x100_0000 && EncHandshake(Reserialize(ch)) <= payload <==>
             Faithful(data, |EncFixed(ch.fixed)|))
  {
    hide EncFixed, AbsorbAll, U16, U24, ParseBody, BlockFrames, HasBlock, EncHandshake, Faithful, Reserialize, Writable, Dropped;
    AcceptedShape(recordHeader, payload);
    var ch, data := Parse(recordHeader, payload).value, HelloBytes(payload);
    var p := |EncFixed(ch.fixed)|;
    FrontOf(EncFixed(ch.fixed), data, p);
    BodyRewritten(ch, data, p);
    if Writable(ch) && |Reserialize(ch)| < 0x100_0000 {
      ExactBody(payload, Reserialize(ch));
    }
  }

  lemma FrontOf(a: seq<byte>, data: seq<byte>, p: nat)
    requires p == |a|
    ensures forall b {:trigger a + b} :: data == a + b ==> data[..p] == a
  {
  }

  /** No serializer does better: what it writes for one decoded hello cannot start two different inputs. */
  lemma DecodedAlike(recordHeader: seq<byte>, p: seq<byte>, q: seq<byte>, body: seq<byte>)
    requires |recordHeader| >= 3 && |body| < 0x100_0000
    requires Parse(recordHeader, p).Ok? && Parse(recordHeader, q) == Parse(recordHeader, p)
    ensures Framed(p) && Framed(q)
    ensures EncHandshake(body) <= p && EncHandshake(body) <= q ==> HelloBytes(p) == HelloBytes(q)
  {
    hide ParseBody, EncHandshake;
    ExactBody(p, body);
    ExactBody(q, body);
  }

  /** Two hellos that differ only in the first of two bodies of one extension type are decoded alike. */
  lemma EarlierBodyLost(recordHeader: seq<byte>, x: Fixed)
    requires |recordHeader| >= 3 && ValidFixed(x) && |EncFixed(x)| + 12 < 0x100_0000
    ensures var fs, gs := [Frame(7, [1]), Frame(7, [2])], [Frame(7, [2]), Frame(7, [2])];
            && ValidFrames(fs) && ValidFrames(gs) && |EncFrames(fs)| == |EncFrames(gs)| == 10
            && EncFixed(x) + EncBlock(fs) != EncFixed(x) + EncBlock(gs)
            && |EncBlock(fs)| == |EncBlock(gs)| == 12
            && Parse(recordHeader, EncHandshake(EncFixed(x) + EncBlock(fs))).Ok?
            && Parse(recordHeader, EncHandshake(EncFixed(x) + EncBlock(fs))) == Parse(recordHeader, EncHandshake(EncFixed(x) + EncBlock(gs)))
  {
    hide EncFixed, ParseBody, EncHandshake, At, Absorb, AbsorbAll, Parse;
    var f, g := Frame(7, [1]), Frame(7, [2]);
    TwoFrames(f, g);
    TwoFrames(g, g);
    BlockParsed(recordHeader, x, [f, g]);
    BlockParsed(recordHeader, x, [g, g]);
    SecondWins(f, g);
    SameTail(EncFixed(x), EncBlock([f, g]), EncBlock([g, g]));
    assert EncBlock([f, g])[6] == 1 && EncBlock([g, g])[6] == 2;
  }

  lemma SecondWins(f: Frame, g: Frame)
    requires f == Frame(7, [1]) && g == Frame(7, [2])
    ensures Absorb(Absorb(NO_EXTENSIONS, f), g) == Absorb(Absorb(NO_EXTENSIONS, g), g)
  {
    assert Absorb(Absorb(NO_EXTENSIONS, f), g).bodies == Absorb(Absorb(NO_EXTENSIONS, g), g).bodies;
  }

  lemma TwoFrames(f: Frame, g: Frame)
    requires |f.data| == 1 && |g.data| == 1
    ensures ValidFrames([f, g]) && EncFrames([f, g]) == EncFrame(f) + EncFrame(g)
    ensures AbsorbAll(NO_EXTENSIONS, [f, g]) == Absorb(Absorb(NO_EXTENSIONS, f), g)
  {
    assert [f, g][1..] == [g] && [g][1..] == [];
    assert EncFrames([g]) == EncFrame(g) + [];
    assert [f, g] == [f] + [g] && [f] == [] + [f];
    AbsorbSnoc(NO_EXTENSIONS, [f], g);
    AbsorbSnoc(NO_EXTENSIONS, [], f);
  }

  lemma BlockParsed(recordHeader: seq<byte>, x: Fixed, fs: seq<Frame>)
    requires |recordHeader| >= 3 && ValidFixed(x) && ValidFrames(fs) && |EncFrames(fs)| < 0x1_0000
    requires |EncFixed(x) + EncBlock(fs)| < 0x100_0000
    ensures Parse(recordHeader, EncHandshake(EncFixed(x) + EncBlock(fs)))
         == Ok(Hello(U16(recordHeader, 1), x, AbsorbAll(NO_EXTENSIONS, fs)))
  {
    hide At, EncFixed, EncBlock, AbsorbAll, TakeFixed, EncHandshake, ParseExtensions;
    var body := EncFixed(x) + EncBlock(fs);
    HandshakeHeader(recordHeader, body, []);
    assert EncHandshake(body) + [] == EncHandshake(body);
    AtStart(body);
    AtSplit(body, 0, EncFixed(x), EncBlock(fs));
    FixedExactly(body, x, |EncFixed(x)|);
    BlockDecoded(x, fs);
  }

  /** With distinct ids the list of frames can be read back from the decoded structure. */
  lemma FramesRecovered(fs: seq<Frame>)
    requires forall i, j :: 0 <= i < j < |fs| ==> fs[i].id != fs[j].id
    ensures var e := AbsorbAll(NO_EXTENSIONS, fs);
            |e.ids| == |fs| &&
            forall i :: 0 <= i < |fs| ==> e.ids[i] in e.bodies && fs[i] == Frame(e.ids[i], e.bodies[e.ids[i]])
  {
    hide AbsorbAll;
    AbsorbedSummary(fs);
    AbsorbedBodies(fs);
    var e := AbsorbAll(NO_EXTENSIONS, fs);
    forall i | 0 <= i < |fs| ensures e.ids[i] in e.bodies && fs[i] == Frame(e.ids[i], e.bodies[e.ids[i]]) {
      assert HasBody(e, fs[i]);
    }
  }

  /** A handshake message is a prefix of the payload exactly when its body is the declared one. */
  lemma ExactBody(payload: seq<byte>, body: seq<byte>)
    requires Framed(payload) && |body| < 0x100_0000
    ensures EncHandshake(body) <= payload <==> body == HelloBytes(payload)
  {
    hide At, Enc24, U24;
    AtByte(payload, 0, 0x01, Enc24(|body|) + body);
    At24(payload, 1, |body|, body);
    AtMeans(payload, 4, body);
    AtMeans(payload, 0, EncHandshake(body));
    assert EncHandshake(body) <= payload <==>
           |EncHandshake(body)| <= |payload| && payload[0..|EncHandshake(body)|] == EncHandshake(body);
  }
}
