/** The whitelist: what adding and removing a block does to the addresses let through. */
module Whitelist {
  import opened BitPrefix
  import opened Cidr
  import opened Numerals
  import opened Sequences
  import opened Wrappers

  /** A text as the library reads it: up to its first NUL. */
  function CString(t: string): string {
    if t == "" || t[0] == '\0' then "" else [t[0]] + CString(t[1..])
  }

  /** What the library promises about its conversions. */
  ghost predicate Lawful(net: Net) {
    && (forall t: string :: net.pton4(t).Some? ==> net.pton6(t).None?)
    && (forall b: Bytes4 :: net.pton4(net.ntop4(b)) == Some(b))
    && (forall b: Bytes16 :: net.pton6(net.ntop6(b)) == Some(b))
    && (forall t: string :: net.pton4(t) == net.pton4(CString(t)) && net.pton6(t) == net.pton6(CString(t)))
    && (forall t: string :: '/' in t && '\0' !in t ==> net.pton4(t).None? && net.pton6(t).None?)
    && net.pton4("").None? && net.pton6("").None?
  }

  /** `::ffff:a.b.c.d` carries an IPv4 address in its last four bytes. */
  predicate Mapped(b: Bytes16) {
    (forall i :: 0 <= i < 10 ==> b[i] == 0) && b[10] == 0xFF && b[11] == 0xFF
  }

  predicate ValidIp(net: Net, ip: string) {
    ip != "" && (net.pton4(ip).Some? || net.pton6(ip).Some?)
  }

  function Normalized(net: Net, ip: string): string {
    if ip == "" then ip
    else
      match net.pton6(ip)
      case None => ip
      case Some(b) => if Mapped(b) then net.ntop4(b[12..]) else net.ntop6(b)
  }

  method NormalizeIp(net: Net, ip: string) returns (r: string)
    ensures r == Normalized(net, ip)
  {
    if ip == "" {
      return ip;
    }
    var v6 := net.pton6(ip);
    if v6.None? {
      return ip;
    }
    var b := v6.value;
    if b[0] == 0 && b[1] == 0 && b[2] == 0 && b[3] == 0 && b[4] == 0 && b[5] == 0 && b[6] == 0 && b[7] == 0
       && b[8] == 0 && b[9] == 0 && b[10] == 0xFF && b[11] == 0xFF {
      return net.ntop4(b[12..]);
    }
    return net.ntop6(b);
  }

  /** The address an address text is looked up as: a mapped one counts as IPv4. */
  function Resolved(net: Net, ip: string): Addr
    requires ValidIp(net, ip)
  {
    match net.pton6(ip)
    case None => V4(net.pton4(ip).value)
    case Some(b) => if Mapped(b) then V4(b[12..]) else V6(b)
  }

  /** Looking up the normalized text is looking up the resolved address. */
  lemma LookedUp(net: Net, ip: string, b: Block)
    requires Lawful(net) && ValidIp(net, ip) && Sized(b)
    ensures TextInBlock(net, Normalized(net, ip), b) <==> InBlock(Resolved(net, ip), b)
  {
    hide SamePrefix;
    var t := Normalized(net, ip);
    match net.pton6(ip) {
      case None => assert net.pton6(t).None?;
      case Some(v) =>
        if Mapped(v) {
          assert net.pton4(t) == Some(v[12..]);
        } else {
          assert net.pton6(t) == Some(v);
        }
    }
  }

  lemma {:induction false} WithoutAbsent(bs: seq<Block>, b: Block)
    requires b !in bs
    ensures Without(bs, b) == bs && Without(bs + [b], b) == bs
    decreases |bs|
  {
    if bs == [] {
      assert Without([b], b) == [] + Without([b][1..], b);
    } else {
      WithoutAbsent(bs[1..], b);
      assert (bs + [b])[1..] == bs[1..] + [b];
    }
  }

  /** Texts in normal form, and blocks. */
  datatype Lists = Lists(exact: set<string>, blocks: seq<Block>)

  predicate AllSized(l: Lists) {
    forall i :: 0 <= i < |l.blocks| ==> Sized(l.blocks[i])
  }

  function Added(net: Net, l: Lists, t: string): Lists {
    match ParseCidr(net, t)
    case Some(c) => if c in l.blocks then l else l.(blocks := l.blocks + [c])
    case None => if ValidIp(net, t) then l.(exact := l.exact + {Normalized(net, t)}) else l
  }

  function Removed(net: Net, l: Lists, t: string): Lists {
    match ParseCidr(net, t)
    case Some(c) => l.(blocks := Without(l.blocks, c))
    case None => l.(exact := l.exact - {Normalized(net, t)})
  }

  /** An address text whose normal form is listed or whose address is in a listed block. */
  ghost predicate Admits(net: Net, l: Lists, ip: string)
    requires AllSized(l)
  {
    ValidIp(net, ip) &&
    (Normalized(net, ip) in l.exact || exists i :: 0 <= i < |l.blocks| && InBlock(Resolved(net, ip), l.blocks[i]))
  }

  lemma StaySized(net: Net, l: Lists, t: string)
    requires AllSized(l)
    ensures AllSized(Added(net, l, t)) && AllSized(Removed(net, l, t))
  {
    hide ParseCidr;
    var r := Removed(net, l, t);
    forall i | 0 <= i < |r.blocks| ensures Sized(r.blocks[i]) {
      assert r.blocks[i] in l.blocks;
    }
  }

  class Whitelist {
    const net: Net
    var exact: set<string>
    var blocks: seq<Block>

    constructor (net: Net)
      ensures this.net == net && Contents() == Lists({}, []) && Valid()
    {
      this.net := net;
      exact, blocks := {}, [];
    }

    function Contents(): Lists
      reads this
    {
      Lists(exact, blocks)
    }

    predicate Valid()
      reads this
    {
      AllSized(Contents())
    }

    method AddToWhitelist(t: string)
      requires Valid()
      modifies this
      ensures Valid() && Contents() == Added(net, old(Contents()), t)
    {
      hide ParseCidr;
      StaySized(net, Contents(), t);
      var c := ParseCidrText(net, t);
      if c.Some? {
        for i := 0 to |blocks|
          invariant c.value !in blocks[..i]
        {
          if blocks[i] == c.value {
            return;
          }
        }
        blocks := blocks + [c.value];
        return;
      }
      if !ValidIp(net, t) {
        return;
      }
      var n := NormalizeIp(net, t);
      exact := exact + {n};
    }

    method RemoveFromWhitelist(t: string)
      requires Valid()
      modifies this
      ensures Valid() && Contents() == Removed(net, old(Contents()), t)
    {
      hide ParseCidr;
      StaySized(net, Contents(), t);
      var c := ParseCidrText(net, t);
      if c.Some? {
        blocks := Without(blocks, c.value);
        return;
      }
      var n := NormalizeIp(net, t);
      exact := exact - {n};
    }

    method IsWhitelisted(ip: string) returns (r: bool)
      requires Valid() && Lawful(net)
      ensures r <==> Admits(net, Contents(), ip)
    {
      hide InBlock, TextInBlock;
      if !ValidIp(net, ip) {
        return false;
      }
      var norm := NormalizeIp(net, ip);
      if norm in exact {
        return true;
      }
      for i := 0 to |blocks|
        invariant forall k :: 0 <= k < i ==> !InBlock(Resolved(net, ip), blocks[k])
      {
        LookedUp(net, ip, blocks[i]);
        var found := IpInCidr(net, norm, blocks[i]);
        if found {
          return true;
        }
      }
      return false;
    }
  }

  // ---------------------------------------------------------------- what adding and removing mean

  lemma {:induction false} SlashSplits(t: string)
    ensures Slash(t) == |t| <==> '/' !in t
  {
    assert t[..|t|] == t;
  }

  lemma {:induction false} CStringShort(t: string)
    ensures '\0' !in CString(t) && ('\0' !in t ==> CString(t) == t)
  {
    if t != "" && t[0] != '\0' {
      CStringShort(t[1..]);
    }
  }

  /** A slash the library does not read leaves what it reads before the slash. */
  lemma {:induction false} CStringBefore(t: string, i: nat)
    requires i < |t| && t[i] == '/' && '/' !in CString(t)
    ensures CString(t[..i]) == CString(t)
    decreases i
  {
    if t[0] != '\0' {
      assert CString(t)[0] == t[0];
      assert t[..i][1..] == t[1..][..i - 1];
      assert CString(t)[1..] == CString(t[1..]);
      CStringBefore(t[1..], i - 1);
    }
  }

  /** The text before the slash of an address text is the same address. */
  lemma SameBefore(net: Net, t: string)
    requires Lawful(net) && ValidIp(net, t) && '/' in t
    ensures Slash(t) < |t| && net.pton4(t[..Slash(t)]) == net.pton4(t) && net.pton6(t[..Slash(t)]) == net.pton6(t)
  {
    SlashSplits(t);
    CStringShort(t);
    CStringBefore(t, Slash(t));
  }

  /** What stands behind the slash is no prefix length of the address's family. */
  predicate BadPrefix(net: Net, t: string)
    requires Slash(t) < |t|
  {
    var digits := t[Slash(t) + 1..];
    !IsDigits(digits) || Positional(digits) > if net.pton4(t).Some? then 32 else 128
  }

  /** Every address text parses as a block, unless it holds a slash with no prefix length behind it; the slash then stands behind a NUL. */
  lemma ExactListExactly(net: Net, t: string)
    requires Lawful(net) && ValidIp(net, t)
    ensures '/' in t <==> Slash(t) < |t|
    ensures ParseCidr(net, t).None? <==> '/' in t && BadPrefix(net, t)
    ensures '/' in t ==> '\0' in t
  {
    SlashSplits(t);
    if '/' in t {
      SameBefore(net, t);
    }
  }

  /** Without a NUL every address also parses as a block, so adding it never reaches the exact list. */
  lemma EveryAddressIsABlock(net: Net, t: string)
    requires Lawful(net) && ValidIp(net, t) && '\0' !in t
    ensures ParseCidr(net, t).Some?
  {
    hide ParseCidr;
    ExactListExactly(net, t);
  }

  /** Adding a text puts it on the exact list if and only if it is such an address text, whatever is listed. */
  lemma ReachesExactList(net: Net, l: Lists, t: string)
    requires Lawful(net)
    ensures '/' in t <==> Slash(t) < |t|
    ensures ValidIp(net, t) && '/' in t && BadPrefix(net, t) ==> Added(net, l, t) == l.(exact := l.exact + {Normalized(net, t)})
    ensures !(ValidIp(net, t) && '/' in t && BadPrefix(net, t)) ==> Added(net, l, t).exact == l.exact
  {
    hide ParseCidr, BadPrefix;
    SlashSplits(t);
    if ValidIp(net, t) {
      ExactListExactly(net, t);
    }
  }

  /** Adding a text admits, beyond those admitted before, exactly the addresses of the block it names, or those it equals in normal form if it is an address but no block. */
  lemma AddMeans(net: Net, l: Lists, t: string, ip: string)
    requires AllSized(l) && ValidIp(net, ip)
    ensures AllSized(Added(net, l, t))
    ensures Admits(net, Added(net, l, t), ip) <==>
      (Admits(net, l, ip) ||
       match ParseCidr(net, t)
       case Some(c) => InBlock(Resolved(net, ip), c)
       case None => ValidIp(net, t) && Normalized(net, ip) == Normalized(net, t))
  {
    hide InBlock, ParseCidr;
    StaySized(net, l, t);
    var c, r := ParseCidr(net, t), Added(net, l, t);
    assert forall i :: 0 <= i < |l.blocks| ==> r.blocks[i] == l.blocks[i];
    if c.Some? {
      assert c.value in r.blocks;
      var k :| 0 <= k < |r.blocks| && r.blocks[k] == c.value;
    }
  }

  /** The address an address text stands for, before IPv4 carried in IPv6 is turned into IPv4. */
  function Written(net: Net, ip: string): Addr
    requires ValidIp(net, ip)
  {
    if net.pton4(ip).Some? then V4(net.pton4(ip).value) else V6(net.pton6(ip).value)
  }

  /** Whitelisting one address lets through that address and nothing else. */
  lemma AddressAdded(net: Net, l: Lists, t: string, ip: string)
    requires AllSized(l) && Lawful(net) && ValidIp(net, t) && '/' !in t && ValidIp(net, ip)
    ensures AllSized(Added(net, l, t))
    ensures Admits(net, Added(net, l, t), ip) <==> Admits(net, l, ip) || Resolved(net, ip) == Written(net, t)
  {
    hide InBlock, ParseCidr, Added, Admits;
    AddMeans(net, l, t, ip);
    BareAddress(net, t, Resolved(net, ip));
  }

  /** Whitelisting an address with a prefix length lets through the addresses that share so many first bits. */
  lemma LengthAdded(net: Net, l: Lists, t: string, n: nat, ip: string)
    requires AllSized(l) && Lawful(net) && ValidIp(net, t) && '/' !in t && '\0' !in t && ValidIp(net, ip)
    ensures var r := Added(net, l, t + "/" + Decimal(n));
      AllSized(r) &&
      (Admits(net, r, ip) <==> Admits(net, l, ip) || ShareBits(Written(net, t), Resolved(net, ip), n))
  {
    hide InBlock, ParseCidr, Added, Admits, SamePrefix, Decimal;
    var s := t + "/" + Decimal(n);
    AddMeans(net, l, s, ip);
    AddressWithLength(net, t, n, Resolved(net, ip));
    NoAddress(net, t, n);
  }

  lemma NoAddress(net: Net, t: string, n: nat)
    requires Lawful(net) && '\0' !in t
    ensures !ValidIp(net, t + "/" + Decimal(n))
  {
    hide Decimal;
    DecimalPositional(n);
    var s := t + "/" + Decimal(n);
    assert s[|t|] == '/';
    assert '\0' !in s;
  }

  /** Removing a block leaves exactly the addresses some other entry admits. */
  lemma RemoveMeans(net: Net, l: Lists, t: string, ip: string)
    requires AllSized(l) && ParseCidr(net, t).Some? && ValidIp(net, ip)
    ensures AllSized(Removed(net, l, t))
    ensures var c := ParseCidr(net, t).value;
      Admits(net, Removed(net, l, t), ip) <==>
        (Normalized(net, ip) in l.exact || exists b :: b in l.blocks && b != c && InBlock(Resolved(net, ip), b))
  {
    hide InBlock, ParseCidr;
    StaySized(net, l, t);
    var c, r := ParseCidr(net, t).value, Removed(net, l, t);
    assert forall i :: 0 <= i < |r.blocks| ==> r.blocks[i] in r.blocks;
    if b :| b in l.blocks && b != c && InBlock(Resolved(net, ip), b) {
      assert b in r.blocks;
      var k :| 0 <= k < |r.blocks| && r.blocks[k] == b;
    }
  }

  /** Adding a block that was not listed and removing it again restores the whitelist. */
  lemma RemoveUndoesAdd(net: Net, l: Lists, t: string)
    requires ParseCidr(net, t).Some? && ParseCidr(net, t).value !in l.blocks
    ensures Removed(net, Added(net, l, t), t) == l
  {
    hide ParseCidr;
    WithoutAbsent(l.blocks, ParseCidr(net, t).value);
  }

  /** Of the IPv6 addresses in a block, those that carry an IPv4 address are exactly the ones it does not admit. */
  lemma MappedExceptionExact(net: Net, ip: string, b: Block)
    requires Lawful(net) && Sized(b) && b.Block6?
    requires net.pton6(ip).Some? && SamePrefix(net.pton6(ip).value, b.network6, b.prefix)
    ensures ValidIp(net, ip) && (TextInBlock(net, Normalized(net, ip), b) <==> !Mapped(net.pton6(ip).value))
  {
    hide SamePrefix;
    assert ip != "";
    LookedUp(net, ip, b);
  }

  /** The sixteen bytes of `::ffff:a.b.c.d`. */
  function Carried(b: Bytes4): Bytes16 {
    [0, 0, 0, 0, 0, 0, 0, 0, 0, 0, 0xFF, 0xFF] + b
  }

  lemma CarriedExactly(v: Bytes16)
    ensures Mapped(v) <==> v == Carried(v[12..])
  {
    assert v == v[..12] + v[12..];
  }

  /** An IPv4 address carried in IPv6 is admitted exactly if the address itself is; any other IPv6 address counts as itself. */
  lemma CarriedIsIpv4(net: Net, l: Lists, ip: string, b: Bytes4)
    requires Lawful(net) && AllSized(l) && net.pton6(ip) == Some(Carried(b))
    ensures ValidIp(net, ip) && ValidIp(net, net.ntop4(b))
    ensures Admits(net, l, ip) <==> Admits(net, l, net.ntop4(b))
  {
    hide InBlock;
    CarriedExactly(Carried(b));
    assert Carried(b)[12..] == b;
    var t := net.ntop4(b);
    assert net.pton4(t) == Some(b);
    assert Normalized(net, ip) == t == Normalized(net, t);
    assert Resolved(net, ip) == V4(b) == Resolved(net, t);
  }

  lemma OtherIpv6(net: Net, ip: string, v: Bytes16)
    requires Lawful(net) && net.pton6(ip) == Some(v) && forall b: Bytes4 :: v != Carried(b)
    ensures ValidIp(net, ip) && Resolved(net, ip) == V6(v) && Normalized(net, ip) == net.ntop6(v)
  {
    CarriedExactly(v);
    assert v != Carried(v[12..]);
  }

  /**
   * After adding a block, every address text that shares its prefix with the address named is
   * admitted, except that an IPv6 block does nothing for IPv4 addresses written as IPv6.
   */
  lemma AddedBlockAdmits(net: Net, l: Lists, t: string, ip: string)
    requires AllSized(l) && Lawful(net) && ParseCidr(net, t).Some? && ValidIp(net, ip)
    ensures AllSized(Added(net, l, t)) && Named(net, t).Some?
    ensures var p := ParseCidr(net, t).value.prefix;
      match Named(net, t).value
      case V4(n) =>
        p <= 32 && (net.pton4(ip).Some? && SamePrefix(net.pton4(ip).value, n, p) ==> Admits(net, Added(net, l, t), ip))
      case V6(n) =>
        p <= 128 && (net.pton6(ip).Some? && SamePrefix(net.pton6(ip).value, n, p) ==>
          if Mapped(net.pton6(ip).value) then Admits(net, Added(net, l, t), ip) <==> Admits(net, l, ip)
          else Admits(net, Added(net, l, t), ip))
  {
    hide SamePrefix, Masked, Admits, Added;
    AddMeans(net, l, t, ip);
    ParsedBlock(net, t, Resolved(net, ip));
    assert t[..|t|] == t;
  }
}
