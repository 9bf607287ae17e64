/** Address blocks: parsing, membership, and the whitelist built from them. */
module Cidr {
  import opened Bytes
  import opened BitPrefix
  import opened Numerals
  import opened Wrappers

  type Bytes4 = s: seq<byte> | |s| == 4 witness [0, 0, 0, 0]
  type Bytes16 = s: seq<byte> | |s| == 16 witness [0, 0, 0, 0, 0, 0, 0, 0, 0, 0, 0, 0, 0, 0, 0, 0]

  /** The library's conversions between address texts and bytes in network order. */
  datatype Net = Net(pton4: string -> Option<Bytes4>, pton6: string -> Option<Bytes16>,
                     ntop4: Bytes4 -> string, ntop6: Bytes16 -> string)

  datatype Block = Block4(network: Bytes4, prefix: nat) | Block6(network6: Bytes16, prefix: nat)

  predicate Sized(b: Block) {
    b.prefix <= if b.Block4? then 32 else 128
  }

  datatype Addr = V4(b4: Bytes4) | V6(b6: Bytes16)

  /** The address is of the block's family and its first bits are the block's. */
  ghost predicate InBlock(a: Addr, b: Block)
    requires Sized(b)
  {
    match b
    case Block4(network, prefix) => a.V4? && SamePrefix(a.b4, network, prefix)
    case Block6(network, prefix) => a.V6? && SamePrefix(a.b6, network, prefix)
  }

  // ---------------------------------------------------------------- masks as the code forms them

  lemma Pow32()
    ensures Power(2, 32) == 0x1_0000_0000
  {
    Pow16();
    PowerSum(2, 16, 16);
  }

  /** All ones less the host bits; no bit at all for prefix 0. */
  function Mask4(prefix: nat): nat
    requires prefix <= 32
  {
    if prefix == 0 then 0
    else
      PowerGrows(2, 32 - prefix, 32);
      Pow32();
      0xFFFF_FFFF - (Power(2, 32 - prefix) - 1)
  }

  lemma Mask4Is(prefix: nat)
    requires prefix <= 32
    ensures Mask4(prefix) == Mask(32, 32 - prefix)
  {
    Pow32();
  }

  /** A byte of ones shifted left and cut to a byte. */
  function Mask8(bits: nat): nat
    requires bits <= 8
  {
    0xFF * Power(2, 8 - bits) % 0x100
  }

  lemma Mask8Is(bits: nat)
    requires 0 < bits <= 8
    ensures Mask8(bits) == Mask(8, 8 - bits)
  {
    var m := Power(2, 8 - bits);
    Pow8();
    PowerGrows(2, 8 - bits, 7);
    assert Power(2, 8) == 2 * Power(2, 7);
    assert 0xFF * m == (m - 1) * 0x100 + (0x100 - m);
  }

  // ---------------------------------------------------------------- membership

  method InCidr4(a: Bytes4, network: Bytes4, prefix: nat) returns (r: bool)
    requires prefix <= 32
    ensures r <==> SamePrefix(a, network, prefix)
  {
    hide And, Mask4, Word;
    Mask4Is(prefix);
    WordMasked(a, prefix);
    WordMasked(network, prefix);
    MaskedSame(a, network, prefix);
    var mask := Mask4(prefix);
    WordOfBytes(And(Word(a), mask));
    WordOfBytes(And(Word(network), mask));
    return And(Word(a), mask) == And(Word(network), mask);
  }

  /** Byte `k` of two strings, up to bit `p`. */
  lemma ByteAgrees(a: seq<byte>, n: seq<byte>, p: nat, k: nat)
    requires |a| == |n| && p <= 8 * |a| && k < |a| && SamePrefix(a, n, if p <= 8 * k then p else 8 * k)
    ensures SamePrefix(a, n, if p <= 8 * k + 8 then p else 8 * k + 8)
       <==> KeptByte(a[k], BitsIn(p, k)) == KeptByte(n[k], BitsIn(p, k))
  {
    hide BitAt;
    var q := if p <= 8 * k + 8 then p else 8 * k + 8;
    var x, y := Masked([a[k]], BitsIn(p, k)), Masked([n[k]], BitsIn(p, k));
    MaskedSame([a[k]], [n[k]], BitsIn(p, k));
    assert x == [KeptByte(a[k], BitsIn(p, k))] && y == [KeptByte(n[k], BitsIn(p, k))];
    assert x == y <==> x[0] == y[0];
    forall i | 8 * k <= i < 8 * k + 8 ensures BitAt(a, i) == BitAt([a[k]], i - 8 * k) && BitAt(n, i) == BitAt([n[k]], i - 8 * k) {
      BitInByte(a, k, i);
      BitInByte(n, k, i);
    }
    if SamePrefix(a, n, q) {
      forall i | 0 <= i < BitsIn(p, k) ensures BitAt([a[k]], i) == BitAt([n[k]], i) {
        assert BitAt(a, 8 * k + i) == BitAt(n, 8 * k + i);
      }
    }
    if SamePrefix([a[k]], [n[k]], BitsIn(p, k)) {
      forall i | 0 <= i < q ensures BitAt(a, i) == BitAt(n, i) {
        if i >= 8 * k {
          assert BitAt([a[k]], i - 8 * k) == BitAt([n[k]], i - 8 * k);
        }
      }
    }
  }

  lemma BitInByte(a: seq<byte>, k: nat, i: nat)
    requires k < |a| && 8 * k <= i < 8 * k + 8
    ensures BitAt(a, i) == BitAt([a[k]], i - 8 * k)
  {
    assert i / 8 == k && i % 8 == i - 8 * k;
  }

  lemma WholeByte(x: byte)
    ensures KeptByte(x, 8) == x && KeptByte(x, 0) == 0
  {
    Pow8();
    forall j | 0 <= j < 8 ensures Bit(KeptByte(x, 8), j) == Bit(x, j) {
      AndBits(x, Mask(8, 0), j);
      MaskBits(8, 0, j);
    }
    BitsDetermine(8, KeptByte(x, 8), x);
  }

  method InCidr6(a: Bytes16, n: Bytes16, prefix: nat) returns (r: bool)
    requires prefix <= 128
    ensures r <==> SamePrefix(a, n, prefix)
  {
    hide And, Mask, BitAt;
    var bits := prefix;
    var i := 0;
    while i < 16 && bits > 0
      invariant 0 <= i <= 16 && bits <= prefix
      invariant bits == if prefix <= 8 * i then 0 else prefix - 8 * i
      invariant SamePrefix(a, n, if prefix <= 8 * i then prefix else 8 * i)
      decreases 16 - i
    {
      ByteAgrees(a, n, prefix, i);
      WholeByte(a[i]);
      WholeByte(n[i]);
      if bits >= 8 {
        if a[i] != n[i] {
          PrefixShorter(a, n, 8 * i + 8, prefix);
          return false;
        }
        bits := bits - 8;
      } else {
        Mask8Is(bits);
        var mask := Mask8(bits);
        if And(a[i], mask) != And(n[i], mask) {
          return false;
        }
        bits := 0;
      }
      i := i + 1;
    }
    return true;
  }

  lemma PrefixShorter(a: seq<byte>, b: seq<byte>, p: nat, q: nat)
    requires |a| == |b| && p <= q <= 8 * |a|
    ensures SamePrefix(a, b, q) ==> SamePrefix(a, b, p)
  {
  }

  /** Membership by text: the family of the block decides how the text is read. */
  ghost predicate TextInBlock(net: Net, ip: string, b: Block)
    requires Sized(b)
  {
    match b
    case Block4(network, prefix) => net.pton4(ip).Some? && SamePrefix(net.pton4(ip).value, network, prefix)
    case Block6(network, prefix) => net.pton6(ip).Some? && SamePrefix(net.pton6(ip).value, network, prefix)
  }

  method IpInCidr(net: Net, ip: string, b: Block) returns (r: bool)
    requires Sized(b)
    ensures r <==> TextInBlock(net, ip, b)
  {
    match b {
      case Block4(network, prefix) =>
        var addr := net.pton4(ip);
        if addr.None? {
          return false;
        }
        r := InCidr4(addr.value, network, prefix);
      case Block6(network, prefix) =>
        var addr := net.pton6(ip);
        if addr.None? {
          return false;
        }
        r := InCidr6(addr.value, network, prefix);
    }
  }

  // ---------------------------------------------------------------- parsing

  /** Position of the first slash, or the length. */
  function Slash(t: string): (i: nat)
    ensures i <= |t| && (i < |t| ==> t[i] == '/') && '/' !in t[..i]
  {
    if t == "" then 0 else if t[0] == '/' then 0 else
      assert t[..1 + Slash(t[1..])] == [t[0]] + t[1..][..Slash(t[1..])];
      1 + Slash(t[1..])
  }

  function ParseCidr(net: Net, t: string): (r: Option<Block>)
    ensures r.Some? ==> Sized(r.value)
  {
    var s := Slash(t);
    if s == |t| then
      if net.pton4(t).Some? then Some(Block4(net.pton4(t).value, 32))
      else if net.pton6(t).Some? then Some(Block6(net.pton6(t).value, 128))
      else None
    else if !IsDigits(t[s + 1..]) then None
    else
      var ip, prefix := t[..s], Positional(t[s + 1..]);
      if net.pton4(ip).Some? then
        if prefix > 32 then None else Some(Block4(Masked(net.pton4(ip).value, prefix), prefix))
      else if net.pton6(ip).Some? then
        if prefix > 128 then None else Some(Block6(Masked(net.pton6(ip).value, prefix), prefix))
      else None
  }

  method ParsePrefix(t: string) returns (prefix: Option<nat>)
    ensures prefix == if IsDigits(t) then Some(Positional(t)) else None
  {
    if t == "" {
      return None;
    }
    var n: nat := 0;
    for i := 0 to |t|
      invariant forall k :: 0 <= k < i ==> '0' <= t[k] <= '9'
      invariant n == Positional(t[..i])
    {
      if t[i] < '0' || t[i] > '9' {
        return None;
      }
      assert t[..i + 1][..i] == t[..i];
      n := n * 10 + (t[i] - '0') as nat;
    }
    assert t[..|t|] == t;
    return Some(n);
  }

  method MaskHost4(network: Bytes4, prefix: nat) returns (r: Bytes4)
    requires prefix <= 32
    ensures r == Masked(network, prefix)
  {
    hide And, Masked, Word, WordBytes;
    Mask4Is(prefix);
    WordMasked(network, prefix);
    var net := And(Word(network), Mask4(prefix));
    return WordBytes(net);
  }

  method MaskHost6(network0: Bytes16, prefix: nat) returns (network: Bytes16)
    requires prefix <= 128
    ensures network == Masked(network0, prefix)
  {
    hide And, Mask;
    network := network0;
    for i := 0 to 16
      invariant forall k :: 0 <= k < i ==> network[k] == Masked(network0, prefix)[k]
      invariant forall k :: i <= k < 16 ==> network[k] == network0[k]
    {
      WholeByte(network0[i]);
      var bitsInThisByte := if prefix - i * 8 < 8 then prefix - i * 8 else 8;
      if bitsInThisByte <= 0 {
        network := network[i := 0];
      } else if bitsInThisByte < 8 {
        Mask8Is(bitsInThisByte);
        var kept: byte := KeptByte(network0[i], bitsInThisByte);
        assert kept == And(network[i], Mask8(bitsInThisByte));
        network := network[i := kept];
      }
    }
  }

  method ParseCidrText(net: Net, t: string) returns (r: Option<Block>)
    ensures r == ParseCidr(net, t)
  {
    hide Masked;
    var slash := Slash(t);
    if slash == |t| {
      var v4 := net.pton4(t);
      if v4.Some? {
        return Some(Block4(v4.value, 32));
      }
      var v6 := net.pton6(t);
      return if v6.Some? then Some(Block6(v6.value, 128)) else None;
    }
    var ipPart := t[..slash];
    var prefix := ParsePrefix(t[slash + 1..]);
    if prefix.None? {
      return None;
    }
    var v4 := net.pton4(ipPart);
    if v4.Some? {
      if prefix.value > 32 {
        return None;
      }
      var network := MaskHost4(v4.value, prefix.value);
      return Some(Block4(network, prefix.value));
    }
    var v6 := net.pton6(ipPart);
    if v6.Some? {
      if prefix.value > 128 {
        return None;
      }
      var network := MaskHost6(v6.value, prefix.value);
      return Some(Block6(network, prefix.value));
    }
    return None;
  }

  // ---------------------------------------------------------------- canonical form

  /** The address named in front of the slash. */
  function Named(net: Net, t: string): Option<Addr> {
    var ip := t[..Slash(t)];
    if net.pton4(ip).Some? then Some(V4(net.pton4(ip).value))
    else if net.pton6(ip).Some? then Some(V6(net.pton6(ip).value))
    else None
  }

  /** The addresses of a parsed block are those that share its prefix with the address in the text. */
  lemma ParsedBlock(net: Net, t: string, a: Addr)
    requires ParseCidr(net, t).Some?
    ensures Named(net, t).Some?
    ensures var b := ParseCidr(net, t).value;
      InBlock(a, b) <==>
        match Named(net, t).value
        case V4(n) => a.V4? && b.Block4? && SamePrefix(a.b4, n, b.prefix)
        case V6(n) => a.V6? && b.Block6? && SamePrefix(a.b6, n, b.prefix)
  {
    hide Masked, BitAt;
    assert t[..|t|] == t;
    var b := ParseCidr(net, t).value;
    match Named(net, t).value {
      case V4(n) => MaskedSame(n, n, b.prefix);
      case V6(n) => MaskedSame(n, n, b.prefix);
    }
  }

  lemma NoSlash(t: string)
    requires '/' !in t
    ensures Slash(t) == |t|
  {
    assert t[..|t|] == t;
  }

  lemma SlashBehind(ip: string, rest: string)
    requires '/' !in ip
    ensures Slash(ip + "/" + rest) == |ip| && (ip + "/" + rest)[..|ip|] == ip && (ip + "/" + rest)[|ip| + 1..] == rest
  {
    var t := ip + "/" + rest;
    assert t[|ip|] == '/' && t[..|ip|] == ip;
    assert forall i :: 0 <= i < |ip| ==> t[i] in ip;
    assert forall i :: |ip| < i <= |t| ==> t[|ip|] in t[..i];
  }

  /** Both addresses are of one family, of at least `n` bits, and the first `n` agree. */
  ghost predicate ShareBits(a: Addr, b: Addr, n: nat) {
    match a
    case V4(x) => b.V4? && n <= 32 && SamePrefix(b.b4, x, n)
    case V6(x) => b.V6? && n <= 128 && SamePrefix(b.b6, x, n)
  }

  /** Addresses that agree in all their bits are one address, and an address agrees with itself. */
  lemma AllBits(a: seq<byte>, b: seq<byte>)
    requires |a| == |b|
    ensures SamePrefix(a, b, 8 * |a|) <==> a == b
  {
    hide BitAt;
    if SamePrefix(a, b, 8 * |a|) {
      BytesDetermined(a, b);
    }
  }

  /** A text without a slash that is an address is the block of just this address; any other is none. */
  lemma BareAddress(net: Net, t: string, a: Addr)
    requires '/' !in t
    ensures ParseCidr(net, t).Some? <==> net.pton4(t).Some? || net.pton6(t).Some?
    ensures ParseCidr(net, t).Some? ==>
      (InBlock(a, ParseCidr(net, t).value) <==>
         a == if net.pton4(t).Some? then V4(net.pton4(t).value) else V6(net.pton6(t).value))
  {
    hide SamePrefix;
    NoSlash(t);
    if net.pton4(t).Some? && a.V4? {
      AllBits(a.b4, net.pton4(t).value);
    } else if net.pton6(t).Some? && a.V6? {
      AllBits(a.b6, net.pton6(t).value);
    }
  }

  /**
   An address, a slash and a number in decimal are the block of the addresses of that family that
   share so many first bits, if the address has so many; otherwise they are no block.
   */
  lemma AddressWithLength(net: Net, ip: string, n: nat, a: Addr)
    requires '/' !in ip
    ensures var r := ParseCidr(net, ip + "/" + Decimal(n));
      if net.pton4(ip).Some? then
        if n > 32 then r.None?
        else r.Some? && (InBlock(a, r.value) <==> a.V4? && SamePrefix(a.b4, net.pton4(ip).value, n))
      else if net.pton6(ip).Some? then
        if n > 128 then r.None?
        else r.Some? && (InBlock(a, r.value) <==> a.V6? && SamePrefix(a.b6, net.pton6(ip).value, n))
      else r.None?
  {
    hide BitAt, Masked, Decimal, IsDigits, Positional;
    SlashBehind(ip, Decimal(n));
    DecimalPositional(n);
    if ParseCidr(net, ip + "/" + Decimal(n)).Some? {
      ParsedBlock(net, ip + "/" + Decimal(n), a);
    }
  }

  /** Anything but digits behind the first slash makes no block. */
  lemma NoLength(net: Net, ip: string, rest: string)
    requires '/' !in ip && (rest == "" || exists i :: 0 <= i < |rest| && rest[i] !in "0123456789")
    ensures ParseCidr(net, ip + "/" + rest).None?
  {
    SlashBehind(ip, rest);
    if IsDigits(rest) {
      var i :| 0 <= i < |rest| && rest[i] !in "0123456789";
      DigitListed(rest[i]);
    }
  }

  lemma DigitListed(c: char)
    requires IsDigit(c)
    ensures c in "0123456789"
  {
    assert c == "0123456789"[c as int - 48];
  }

  /** Two blocks parsed with one family and prefix are stored alike exactly when they hold the same addresses. */
  lemma StoredCanonically(net: Net, s: string, t: string)
    requires ParseCidr(net, s).Some? && ParseCidr(net, t).Some?
    requires var b, c := ParseCidr(net, s).value, ParseCidr(net, t).value; b.Block4? == c.Block4? && b.prefix == c.prefix
    ensures var b, c := ParseCidr(net, s).value, ParseCidr(net, t).value;
      b == c <==> forall a :: InBlock(a, b) <==> InBlock(a, c)
  {
    hide Masked, BitAt, ParseCidr;
    var b, c := ParseCidr(net, s).value, ParseCidr(net, t).value;
    ParsedMasked(net, s);
    ParsedMasked(net, t);
    if forall a :: InBlock(a, b) <==> InBlock(a, c) {
      if b.Block4? {
        assert InBlock(V4(b.network), b);
        MaskedSame(b.network, c.network, b.prefix);
      } else {
        assert InBlock(V6(b.network6), b);
        MaskedSame(b.network6, c.network6, b.prefix);
      }
    }
  }

  /** A stored network has no host bits. */
  lemma ParsedMasked(net: Net, t: string)
    requires ParseCidr(net, t).Some?
    ensures var b := ParseCidr(net, t).value;
      if b.Block4? then Masked(b.network, b.prefix) == b.network else Masked(b.network6, b.prefix) == b.network6
  {
    hide Masked, BitAt;
    assert t[..|t|] == t;
    var b := ParseCidr(net, t).value;
    match Named(net, t).value {
      case V4(n) =>
        MaskedSame(n, n, b.prefix);
        MaskedSame(Masked(n, b.prefix), n, b.prefix);
        WholeMasked(n);
      case V6(n) =>
        MaskedSame(n, n, b.prefix);
        MaskedSame(Masked(n, b.prefix), n, b.prefix);
        WholeMasked(n);
    }
  }

  lemma WholeMasked(s: seq<byte>)
    ensures Masked(s, 8 * |s|) == s
  {
    forall i | 0 <= i < 8 * |s| ensures BitAt(Masked(s, 8 * |s|), i) == BitAt(s, i) {
      MaskedBit(s, 8 * |s|, i);
    }
    BytesDetermined(Masked(s, 8 * |s|), s);
  }
}
