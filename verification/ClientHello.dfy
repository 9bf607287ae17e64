/** The TLS ClientHello decoder of the gateway, against the wire format of RFC 8446, section 4.1.2. */
module ClientHello {
  import opened Bytes

  datatype Result<+T> = Ok(value: T) | Err(error: Error)

  datatype Error =
    | PayloadTooShort
    | NotClientHello(messageType: byte)
    | TruncatedHello
    | TruncatedVersion
    | TruncatedRandom
    | TruncatedSessionIdLength
    | TruncatedSessionId
    | TruncatedCipherLength
    | TruncatedCiphers
    | TruncatedCompressionLength
    | TruncatedCompression
    | TruncatedExtensions

  datatype Hello = Hello(recordVersion: u16, fixed: Fixed, extensions: Extensions)

  /** Everything before the extensions. */
  datatype Fixed = Fixed(version: u16, random: seq<byte>, sessionId: seq<byte>,
                         cipherSuites: seq<u16>, compressionMethods: seq<byte>, greaseCiphers: nat)

  datatype Extensions = Extensions(ids: seq<u16>, bodies: map<u16, seq<byte>>, greaseIds: nat, known: Known)

  /** What the decoder reads out of the extension types it knows. */
  datatype Known = Known(
    supportedGroups: seq<u16>,
    greaseGroups: nat,
    ecPointFormats: seq<byte>,
    signatureAlgos: seq<u16>,
    alpnProtocols: seq<seq<byte>>,
    supportedVersions: seq<u16>,
    serverName: seq<byte>,
    paddingLength: nat,
    hasStatusRequest: bool,
    hasRenegotiation: bool)

  // ---------------------------------------------------------------- GREASE

  predicate IsGrease(v: u16) {
    v / 0x100 == v % 0x100 && v % 0x10 == 0x0A
  }

  /** The sixteen reserved values of RFC 8701, section 2: 0x0A0A, 0x1A1A, ..., 0xFAFA. */
  lemma GreaseValues(v: u16)
    ensures IsGrease(v) <==> exists k :: 0 <= k < 16 && v == 0x0A0A + k * 0x1010
  {
    if IsGrease(v) {
      var k := v % 0x100 / 0x10;
      assert v == 0x0A0A + k * 0x1010;
    }
  }

  function CountGrease(vs: seq<u16>): nat {
    if vs == [] then 0 else (if IsGrease(vs[0]) then 1 else 0) + CountGrease(vs[1..])
  }

  lemma {:induction false} CountGreaseSnoc(vs: seq<u16>, v: u16)
    ensures CountGrease(vs + [v]) == CountGrease(vs) + if IsGrease(v) then 1 else 0
  {
    if vs == [] {
      assert vs + [v] == [v];
    } else {
      assert (vs + [v])[1..] == vs[1..] + [v];
      CountGreaseSnoc(vs[1..], v);
    }
  }

  // ---------------------------------------------------------------- extension bodies

  function List16(data: seq<byte>): seq<u16> {
    if |data| < 2 || |data| - 2 < U16(data, 0) || U16(data, 0) % 2 != 0 then []
    else Dec16s(data, 2, U16(data, 0) / 2)
  }

  function List8(data: seq<byte>): seq<byte> {
    if |data| < 1 || |data| - 1 < data[0] then [] else data[1..1 + data[0]]
  }

  function Versions(data: seq<byte>): seq<u16> {
    if |data| < 1 || |data| - 1 < data[0] || data[0] % 2 != 0 then [] else Dec16s(data, 1, data[0] / 2)
  }

  function HostName(data: seq<byte>): seq<byte> {
    if |data| < 5 || 5 + U16(data, 3) > |data| then [] else data[5..5 + U16(data, 3)]
  }

  /** Length-prefixed names that start before `listEnd`; the last may run past it, up to the end of `data`. */
  function Names(data: seq<byte>, pos: nat, listEnd: nat): seq<seq<byte>>
    requires pos <= |data|
    decreases |data| - pos
  {
    if pos >= listEnd || pos == |data| || pos + 1 + data[pos] > |data| then []
    else [data[pos + 1..pos + 1 + data[pos]]] + Names(data, pos + 1 + data[pos], listEnd)
  }

  function Alpn(data: seq<byte>): seq<seq<byte>> {
    if |data| < 2 || |data| - 2 < U16(data, 0) then [] else Names(data[2..], 0, U16(data, 0))
  }

  method ParseSni(data: seq<byte>) returns (name: seq<byte>)
    ensures name == HostName(data)
  {
    if |data| < 5 {
      return [];
    }
    var nameLen := U16(data, 3);
    if 5 + nameLen > |data| {
      return [];
    }
    return data[5..5 + nameLen];
  }

  method ParseUint16List(data0: seq<byte>) returns (result: seq<u16>)
    ensures result == List16(data0)
  {
    if |data0| < 2 {
      return [];
    }
    var listLen := U16(data0, 0);
    var data := data0[2..];
    if |data| < listLen || listLen % 2 != 0 {
      return [];
    }
    result := [];
    for i := 0 to listLen / 2
      invariant result == Dec16s(data0, 2, i)
    {
      result := result + [U16(data, 2 * i)];
    }
  }

  method ParseUint8List(data0: seq<byte>) returns (result: seq<byte>)
    ensures result == List8(data0)
  {
    if |data0| < 1 {
      return [];
    }
    var listLen := data0[0];
    var data := data0[1..];
    if |data| < listLen {
      return [];
    }
    result := data[..listLen];
  }

  method ParseSupportedVersions(data0: seq<byte>) returns (result: seq<u16>)
    ensures result == Versions(data0)
  {
    if |data0| < 1 {
      return [];
    }
    var listLen := data0[0];
    var data := data0[1..];
    if |data| < listLen || listLen % 2 != 0 {
      return [];
    }
    result := [];
    for i := 0 to listLen / 2
      invariant result == Dec16s(data0, 1, i)
    {
      result := result + [U16(data, 2 * i)];
    }
  }

  method ParseAlpn(data0: seq<byte>) returns (protocols: seq<seq<byte>>)
    ensures protocols == Alpn(data0)
  {
    protocols := [];
    if |data0| < 2 {
      return;
    }
    var listLen := U16(data0, 0);
    var data := data0[2..];
    if |data| < listLen {
      return;
    }
    var pos := 0;
    while pos < listLen
      invariant 0 <= pos <= |data|
      invariant protocols + Names(data, pos, listLen) == Names(data, 0, listLen)
      decreases listLen - pos
    {
      if pos >= |data| {
        break;
      }
      var pLen := data[pos];
      pos := pos + 1;
      if pos + pLen > |data| {
        break;
      }
      protocols := protocols + [data[pos..pos + pLen]];
      pos := pos + pLen;
    }
  }

  // ---------------------------------------------------------------- the fixed part and the extension frames

  predicate ValidFixed(x: Fixed) {
    |x.random| == 32 && |x.sessionId| < 0x100 && 2 * |x.cipherSuites| < 0x1_0000 && |x.compressionMethods| < 0x100 &&
    x.greaseCiphers == CountGrease(x.cipherSuites)
  }

  /** A byte string behind a one-byte length. */
  function Short(s: seq<byte>): seq<byte>
    requires |s| < 0x100
  {
    [|s|] + s
  }

  function EncFixed(x: Fixed): seq<byte>
    requires ValidFixed(x)
  {
    Enc16(x.version) + (x.random + (Short(x.sessionId)
      + (Enc16(2 * |x.cipherSuites|) + (EncAll16(x.cipherSuites) + Short(x.compressionMethods)))))
  }

  /** The fixed part of `data` and the position where it ends. */
  function TakeFixed(data: seq<byte>): (r: Result<(Fixed, nat)>)
    ensures r.Ok? ==> r.value.1 <= |data|
  {
    if 2 > |data| then Err(TruncatedVersion)
    else if 34 > |data| then Err(TruncatedRandom)
    else if 35 > |data| then Err(TruncatedSessionIdLength)
    else
      var sidLen: nat := data[34];
      var a := 35 + sidLen;
      if a > |data| then Err(TruncatedSessionId)
      else if a + 2 > |data| then Err(TruncatedCipherLength)
      else
        var csLen: nat := U16(data, a);
        var c := a + 2 + csLen;
        if c > |data| || csLen % 2 != 0 then Err(TruncatedCiphers)
        else if c + 1 > |data| then Err(TruncatedCompressionLength)
        else
          var cmLen: nat := data[c];
          var e := c + 1 + cmLen;
          if e > |data| then Err(TruncatedCompression)
          else
            var ciphers := Dec16s(data, a + 2, csLen / 2);
            Ok((Fixed(U16(data, 0), data[2..34], data[35..a], ciphers, data[c + 1..e], CountGrease(ciphers)), e))
  }

  datatype Frame = Frame(id: u16, data: seq<byte>)

  predicate ValidFrame(f: Frame) {
    |f.data| < 0x1_0000
  }

  function EncFrame(f: Frame): (b: seq<byte>)
    requires ValidFrame(f)
    ensures |b| == 4 + |f.data|
  {
    Enc16(f.id) + (Enc16(|f.data|) + f.data)
  }

  function EncFrames(fs: seq<Frame>): seq<byte>
    requires forall f :: f in fs ==> ValidFrame(f)
  {
    if fs == [] then [] else EncFrame(fs[0]) + EncFrames(fs[1..])
  }

  /** No whole extension can be read between `pos` and `end`. */
  predicate NoFrame(data: seq<byte>, pos: nat, end: nat)
    requires pos <= end <= |data|
  {
    pos + 4 > end || pos + 4 + U16(data, pos + 2) > end
  }

  /** The extensions that can be read between `pos` and `end`. */
  function Frames(data: seq<byte>, pos: nat, end: nat): seq<Frame>
    requires pos <= end <= |data|
    decreases end - pos
  {
    if NoFrame(data, pos, end) then []
    else
      var next := pos + 4 + U16(data, pos + 2);
      [Frame(U16(data, pos), data[pos + 4..next])] + Frames(data, next, end)
  }

  /** Where reading them stops. */
  function FramesEnd(data: seq<byte>, pos: nat, end: nat): (p: nat)
    requires pos <= end <= |data|
    ensures pos <= p <= end
    decreases end - pos
  {
    if NoFrame(data, pos, end) then pos else FramesEnd(data, pos + 4 + U16(data, pos + 2), end)
  }

  /** Effect of one extension on the known fields. */
  function AbsorbKnown(k: Known, f: Frame): Known {
    match f.id
    case 0x0000 => k.(serverName := HostName(f.data))
    case 0x0005 => k.(hasStatusRequest := true)
    case 0x000a => k.(supportedGroups := List16(f.data), greaseGroups := k.greaseGroups + CountGrease(List16(f.data)))
    case 0x000b => k.(ecPointFormats := List8(f.data))
    case 0x000d => k.(signatureAlgos := List16(f.data))
    case 0x0010 => k.(alpnProtocols := Alpn(f.data))
    case 0x0015 => k.(paddingLength := |f.data|)
    case 0x002b => k.(supportedVersions := Versions(f.data))
    case 0xff01 => k.(hasRenegotiation := true)
    case _ => k
  }

  function Absorb(e: Extensions, f: Frame): Extensions {
    Extensions(e.ids + [f.id], e.bodies[f.id := f.data],
               e.greaseIds + if IsGrease(f.id) then 1 else 0, AbsorbKnown(e.known, f))
  }

  function AbsorbAll(e: Extensions, fs: seq<Frame>): Extensions
    decreases |fs|
  {
    if fs == [] then e else AbsorbAll(Absorb(e, fs[0]), fs[1..])
  }

  const NO_EXTENSIONS := Extensions([], map[], 0, Known([], 0, [], [], [], [], [], 0, false, false))

  function ParseExtensions(data: seq<byte>, p: nat): Result<Extensions>
    requires p <= |data|
  {
    if p + 2 > |data| then Ok(NO_EXTENSIONS)
    else if p + 2 + U16(data, p) > |data| then Err(TruncatedExtensions)
    else Ok(AbsorbAll(NO_EXTENSIONS, Frames(data, p + 2, p + 2 + U16(data, p))))
  }

  function ParseBody(recordVersion: u16, data: seq<byte>): Result<Hello> {
    match TakeFixed(data)
    case Err(e) => Err(e)
    case Ok((x, p)) =>
      match ParseExtensions(data, p)
      case Err(e) => Err(e)
      case Ok(es) => Ok(Hello(recordVersion, x, es))
  }

  function Parse(recordHeader: seq<byte>, payload: seq<byte>): Result<Hello>
    requires |recordHeader| >= 3
  {
    if |payload| < 4 then Err(PayloadTooShort)
    else if payload[0] != 0x01 then Err(NotClientHello(payload[0]))
    else if |payload| - 4 < U24(payload, 1) then Err(TruncatedHello)
    else ParseBody(U16(recordHeader, 1), payload[4..4 + U24(payload, 1)])
  }

  method ParseClientHello(recordHeader: seq<byte>, payload: seq<byte>) returns (r: Result<Hello>)
    requires |recordHeader| >= 3
    ensures r == Parse(recordHeader, payload)
  {
    if |payload| < 4 {
      return Err(PayloadTooShort);
    }
    if payload[0] != 0x01 {
      return Err(NotClientHello(payload[0]));
    }
    var hsLen := U24(payload, 1);
    if |payload| - 4 < hsLen {
      return Err(TruncatedHello);
    }
    r := ParseFields(U16(recordHeader, 1), payload[4..4 + hsLen]);
  }

  method ParseFields(recordVersion: u16, data: seq<byte>) returns (r: Result<Hello>)
    ensures r == ParseBody(recordVersion, data)
  {
    hide TakeFixed, Frames, AbsorbAll, U16;
    var fixed, pos := ReadFixed(data);
    if fixed.Err? {
      return Err(fixed.error);
    }
    if pos + 2 > |data| {
      return Ok(Hello(recordVersion, fixed.value, NO_EXTENSIONS));
    }
    var extTotalLen := U16(data, pos);
    pos := pos + 2;
    if pos + extTotalLen > |data| {
      return Err(TruncatedExtensions);
    }
    var es := AddExtensions(data, pos, pos + extTotalLen);
    return Ok(Hello(recordVersion, fixed.value, es));
  }

  /** The decoder up to the compression methods; `pos` is where the extensions start. */
  method ReadFixed(data: seq<byte>) returns (r: Result<Fixed>, pos: nat)
    ensures match TakeFixed(data)
            case Err(e) => r == Err(e)
            case Ok((x, p)) => r == Ok(x) && pos == p
  {
    pos := 0;
    if pos + 2 > |data| {
      return Err(TruncatedVersion), pos;
    }
    var version := U16(data, pos);
    pos := pos + 2;

    if pos + 32 > |data| {
      return Err(TruncatedRandom), pos;
    }
    var random := data[pos..pos + 32];
    pos := pos + 32;

    if pos + 1 > |data| {
      return Err(TruncatedSessionIdLength), pos;
    }
    var sidLen: nat := data[pos];
    pos := pos + 1;
    if pos + sidLen > |data| {
      return Err(TruncatedSessionId), pos;
    }
    var sessionId := data[pos..pos + sidLen];
    pos := pos + sidLen;

    if pos + 2 > |data| {
      return Err(TruncatedCipherLength), pos;
    }
    var csLen := U16(data, pos);
    pos := pos + 2;
    if pos + csLen > |data| || csLen % 2 != 0 {
      return Err(TruncatedCiphers), pos;
    }
    var ciphers, grease := ReadCiphers(data, pos, csLen);
    pos := pos + csLen;

    if pos + 1 > |data| {
      return Err(TruncatedCompressionLength), pos;
    }
    var cmLen: nat := data[pos];
    pos := pos + 1;
    if pos + cmLen > |data| {
      return Err(TruncatedCompression), pos;
    }
    var methods := ReadCompression(data, pos, cmLen);
    pos := pos + cmLen;
    return Ok(Fixed(version, random, sessionId, ciphers, methods, grease)), pos;
  }

  /** The cipher-suite loop of the decoder. */
  method ReadCiphers(data: seq<byte>, pos: nat, csLen: nat) returns (ciphers: seq<u16>, grease: nat)
    requires pos + csLen <= |data| && csLen % 2 == 0
    ensures ciphers == Dec16s(data, pos, csLen / 2) && grease == CountGrease(ciphers)
  {
    ciphers, grease := [], 0;
    var i := 0;
    while i < csLen
      invariant 0 <= i <= csLen && i % 2 == 0
      invariant ciphers == Dec16s(data, pos, i / 2) && grease == CountGrease(ciphers)
    {
      var cs := U16(data, pos + i);
      CountGreaseSnoc(ciphers, cs);
      ciphers := ciphers + [cs];
      if IsGrease(cs) {
        grease := grease + 1;
      }
      i := i + 2;
    }
  }

  /** The compression-method loop of the decoder. */
  method ReadCompression(data: seq<byte>, pos: nat, cmLen: nat) returns (methods: seq<byte>)
    requires pos + cmLen <= |data|
    ensures methods == data[pos..pos + cmLen]
  {
    methods := [];
    var i := 0;
    while i < cmLen
      invariant 0 <= i <= cmLen
      invariant methods == data[pos..pos + i]
    {
      methods := methods + [data[pos + i]];
      i := i + 1;
    }
  }

  /** The extension loop of the decoder. */
  method AddExtensions(data: seq<byte>, start: nat, extEnd: nat) returns (es: Extensions)
    requires start <= extEnd <= |data|
    ensures es == AbsorbAll(NO_EXTENSIONS, Frames(data, start, extEnd))
  {
    hide Absorb, U16;
    es := NO_EXTENSIONS;
    var pos := start;
    while pos + 4 <= extEnd
      invariant start <= pos <= extEnd
      invariant AbsorbAll(es, Frames(data, pos, extEnd)) == AbsorbAll(NO_EXTENSIONS, Frames(data, start, extEnd))
      decreases extEnd - pos
    {
      var extType := U16(data, pos);
      var extLen: nat := U16(data, pos + 2);
      if pos + 4 + extLen > extEnd {
        break;
      }
      AbsorbNext(es, data, pos, extEnd);
      var extData := data[pos + 4..pos + 4 + extLen];
      pos := pos + 4 + extLen;
      es := AddExtension(es, extType, extData);
    }
  }

  lemma AbsorbNext(e: Extensions, data: seq<byte>, pos: nat, end: nat)
    requires pos <= end <= |data| && !NoFrame(data, pos, end)
    ensures var next := pos + 4 + U16(data, pos + 2);
            AbsorbAll(e, Frames(data, pos, end)) ==
            AbsorbAll(Absorb(e, Frame(U16(data, pos), data[pos + 4..next])), Frames(data, next, end))
  {
    assert Frames(data, pos, end)[1..] == Frames(data, pos + 4 + U16(data, pos + 2), end);
  }

  method AddExtension(before: Extensions, extType: u16, extData: seq<byte>) returns (es: Extensions)
    ensures es == Absorb(before, Frame(extType, extData))
  {
    es := before;
    es := es.(ids := es.ids + [extType]);
    es := es.(bodies := es.bodies[extType := extData]);
    if IsGrease(extType) {
      es := es.(greaseIds := es.greaseIds + 1);
    }
    var known := ParseKnown(es.known, extType, extData);
    es := es.(known := known);
  }

  /** The switch over known extension types. */
  method ParseKnown(known: Known, extType: u16, extData: seq<byte>) returns (k: Known)
    ensures k == AbsorbKnown(known, Frame(extType, extData))
  {
    k := known;
    match extType {
      case 0x0000 =>
        var name := ParseSni(extData);
        k := k.(serverName := name);
      case 0x0005 =>
        k := k.(hasStatusRequest := true);
      case 0x000a =>
        var groups := ParseUint16List(extData);
        k := k.(supportedGroups := groups);
        var grease := CountGreaseIn(groups);
        k := k.(greaseGroups := k.greaseGroups + grease);
      case 0x000b =>
        var formats := ParseUint8List(extData);
        k := k.(ecPointFormats := formats);
      case 0x000d =>
        var algos := ParseUint16List(extData);
        k := k.(signatureAlgos := algos);
      case 0x0010 =>
        var protocols := ParseAlpn(extData);
        k := k.(alpnProtocols := protocols);
      case 0x0015 =>
        k := k.(paddingLength := |extData|);
      case 0x002b =>
        var versions := ParseSupportedVersions(extData);
        k := k.(supportedVersions := versions);
      case 0xff01 =>
        k := k.(hasRenegotiation := true);
      case _ =>
    }
  }

  method CountGreaseIn(groups: seq<u16>) returns (n: nat)
    ensures n == CountGrease(groups)
  {
    n := 0;
    for g := 0 to |groups|
      invariant n == CountGrease(groups[..g])
    {
      assert groups[..g + 1] == groups[..g] + [groups[g]];
      CountGreaseSnoc(groups[..g], groups[g]);
      if IsGrease(groups[g]) {
        n := n + 1;
      }
    }
    assert groups[..|groups|] == groups;
  }
}
