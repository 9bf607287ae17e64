/** Bytes and big-endian integers. */
module Bytes {
  type byte = x: int | 0 <= x < 0x100
  type u16 = x: int | 0 <= x < 0x1_0000

  function U16(b: seq<byte>, i: nat): u16
    requires i + 2 <= |b|
  {
    (b[i] as int) * 0x100 + b[i + 1]
  }

  function Enc16(v: u16): (b: seq<byte>)
    ensures |b| == 2 && U16(b, 0) == v
  {
    [v / 0x100, v % 0x100]
  }

  function U24(b: seq<byte>, i: nat): (v: nat)
    requires i + 3 <= |b|
    ensures v < 0x100_0000
  {
    (b[i] as int) * 0x1_0000 + (b[i + 1] as int) * 0x100 + b[i + 2]
  }

  function Enc24(v: nat): (b: seq<byte>)
    requires v < 0x100_0000
    ensures |b| == 3 && U24(b, 0) == v
  {
    [v / 0x1_0000, v / 0x100 % 0x100, v % 0x100]
  }

  /** Two-byte items, most significant byte first. */
  function EncAll16(vs: seq<u16>): (b: seq<byte>)
    ensures |b| == 2 * |vs|
  {
    if vs == [] then [] else Enc16(vs[0]) + EncAll16(vs[1..])
  }

  /** The `n` two-byte items of `b` that start at `from`. */
  function Dec16s(b: seq<byte>, from: nat, n: nat): (vs: seq<u16>)
    requires from + 2 * n <= |b|
    ensures |vs| == n
  {
    if n == 0 then [] else Dec16s(b, from, n - 1) + [U16(b, from + 2 * n - 2)]
  }

  lemma Enc16Unique(b: seq<byte>, i: nat)
    requires i + 2 <= |b|
    ensures Enc16(U16(b, i)) == b[i..i + 2]
  {
  }

  /** `s` stands at position `p` of `data`. */
  predicate At(data: seq<byte>, p: nat, s: seq<byte>) {
    p + |s| <= |data| && data[p..p + |s|] == s
  }

  lemma AtMeans(data: seq<byte>, p: nat, s: seq<byte>)
    ensures At(data, p, s) <==> p + |s| <= |data| && data[p..p + |s|] == s
  {
  }

  lemma AtSplit(data: seq<byte>, p: nat, s: seq<byte>, t: seq<byte>)
    ensures At(data, p, s + t) <==> At(data, p, s) && At(data, p + |s|, t)
  {
    if At(data, p, s + t) {
      assert (s + t)[..|s|] == s && (s + t)[|s|..] == t;
      assert data[p..p + |s + t|][..|s|] == data[p..p + |s|];
      assert data[p..p + |s + t|][|s|..] == data[p + |s|..p + |s| + |t|];
    }
    if At(data, p, s) && At(data, p + |s|, t) {
      assert data[p..p + |s + t|] == data[p..p + |s|] + data[p + |s|..p + |s| + |t|];
    }
  }

  lemma AtByte(data: seq<byte>, p: nat, b: byte, t: seq<byte>)
    ensures At(data, p, [b] + t) <==> p < |data| && data[p] == b && At(data, p + 1, t)
  {
    AtSplit(data, p, [b], t);
  }

  lemma At16(data: seq<byte>, p: nat, v: u16, t: seq<byte>)
    ensures At(data, p, Enc16(v) + t) <==> p + 2 <= |data| && U16(data, p) == v && At(data, p + 2, t)
  {
    AtSplit(data, p, Enc16(v), t);
    if p + 2 <= |data| {
      assert data[p..p + 2] == [data[p], data[p + 1]];
    }
  }

  lemma At24(data: seq<byte>, p: nat, v: nat, t: seq<byte>)
    requires v < 0x100_0000
    ensures At(data, p, Enc24(v) + t) <==> p + 3 <= |data| && U24(data, p) == v && At(data, p + 3, t)
  {
    AtSplit(data, p, Enc24(v), t);
    AtMeans(data, p, Enc24(v));
    hide At;
    if p + 3 <= |data| {
      assert data[p..p + 3] == [data[p], data[p + 1], data[p + 2]];
      Digits24(data, p, v);
    }
  }

  lemma Digits24(data: seq<byte>, p: nat, v: nat)
    requires p + 3 <= |data| && v < 0x100_0000
    ensures U24(data, p) == v <==>
            data[p] == v / 0x1_0000 && data[p + 1] == v / 0x100 % 0x100 && data[p + 2] == v % 0x100
  {
    Split24(data[p], data[p + 1], data[p + 2], v);
  }

  lemma Split24(x: nat, y: nat, z: nat, v: nat)
    requires x < 0x100 && y < 0x100 && z < 0x100
    ensures x * 0x1_0000 + y * 0x100 + z == v <==> x == v / 0x1_0000 && y == v / 0x100 % 0x100 && z == v % 0x100
  {
    var w := x * 0x100 + y;
    assert w * 0x100 + z == v <==> w == v / 0x100 && z == v % 0x100;
    assert v / 0x1_0000 == v / 0x100 / 0x100;
    assert w == v / 0x100 <==> x == v / 0x100 / 0x100 && y == v / 0x100 % 0x100;
  }

  lemma {:induction false} EncAll16Snoc(vs: seq<u16>, v: u16)
    ensures EncAll16(vs + [v]) == EncAll16(vs) + Enc16(v)
  {
    if vs == [] {
      assert vs + [v] == [v];
    } else {
      assert (vs + [v])[1..] == vs[1..] + [v];
      EncAll16Snoc(vs[1..], v);
    }
  }

  /** Decoding a list of two-byte items and finding its encoding are the same thing. */
  lemma {:induction false} AtAll16(data: seq<byte>, p: nat, vs: seq<u16>)
    ensures At(data, p, EncAll16(vs)) <==> p + 2 * |vs| <= |data| && Dec16s(data, p, |vs|) == vs
  {
    if vs != [] {
      var ws, v := vs[..|vs| - 1], vs[|vs| - 1];
      assert vs == ws + [v];
      EncAll16Snoc(ws, v);
      hide At, U16, Enc16;
      AtSplit(data, p, EncAll16(ws), Enc16(v));
      AtAll16(data, p, ws);
      At16(data, p + 2 * |ws|, v, []);
      AtMeans(data, p + 2 * |vs|, []);
      assert Enc16(v) + [] == Enc16(v);
    }
  }
}
