/** Bits of natural numbers and of byte strings, and the masks that keep leading bits. */
module BitPrefix {
  import opened Bytes
  import opened Numerals

  /** Bitwise conjunction. */
  function And(x: nat, y: nat): (r: nat)
    ensures r <= x && r <= y
  {
    if x == 0 || y == 0 then 0 else 2 * And(x / 2, y / 2) + (x % 2) * (y % 2)
  }

  /** Bit `j`, counted from the least significant. */
  function Bit(x: nat, j: nat): nat {
    if j == 0 then x % 2 else Bit(x / 2, j - 1)
  }

  lemma {:induction false} ZeroBits(j: nat)
    ensures Bit(0, j) == 0
  {
    if j > 0 {
      ZeroBits(j - 1);
    }
  }

  lemma {:induction false} AndBits(x: nat, y: nat, j: nat)
    ensures Bit(And(x, y), j) == Bit(x, j) * Bit(y, j)
    decreases j
  {
    if x == 0 || y == 0 {
      ZeroBits(j);
    } else if j > 0 {
      AndBits(x / 2, y / 2, j - 1);
      assert (2 * And(x / 2, y / 2) + (x % 2) * (y % 2)) / 2 == And(x / 2, y / 2) by {
        assert (x % 2) * (y % 2) <= 1;
      }
    }
  }

  /** The number with ones exactly at the places from `k` up to `n`. */
  function Mask(n: nat, k: nat): nat
    requires k <= n
  {
    PowerGrows(2, k, n);
    Power(2, n) - Power(2, k)
  }

  lemma {:induction false} MaskBits(n: nat, k: nat, j: nat)
    requires k <= n
    ensures Bit(Mask(n, k), j) == if k <= j < n then 1 else 0
    decreases n, j
  {
    PowerGrows(2, k, n);
    if k == n {
      ZeroBits(j);
    } else if k > 0 {
      PowerGrows(2, k - 1, n - 1);
      assert Mask(n, k) == 2 * Mask(n - 1, k - 1);
      if j > 0 {
        MaskBits(n - 1, k - 1, j - 1);
      }
    } else {
      PowerGrows(2, 0, n - 1);
      assert Mask(n, 0) == 2 * Mask(n - 1, 0) + 1;
      if j > 0 {
        MaskBits(n - 1, 0, j - 1);
      }
    }
  }

  /** A number below a power of 2 is determined by its bits. */
  lemma {:induction false} BitsDetermine(n: nat, x: nat, y: nat)
    requires x < Power(2, n) && y < Power(2, n) && forall j :: 0 <= j < n ==> Bit(x, j) == Bit(y, j)
    ensures x == y
  {
    if n > 0 {
      assert Bit(x, 0) == Bit(y, 0);
      forall j | 0 <= j < n - 1 ensures Bit(x / 2, j) == Bit(y / 2, j) {
        assert Bit(x, j + 1) == Bit(y, j + 1);
      }
      BitsDetermine(n - 1, x / 2, y / 2);
    }
  }

  lemma Halved(a: nat, p: nat, b: nat)
    ensures (a * (2 * p) + b) % 2 == b % 2 && (a * (2 * p) + b) / 2 == a * p + b / 2
  {
    var c := a * p;
    assert a * (2 * p) == 2 * c;
    assert (2 * c + b) % 2 == b % 2 && (2 * c + b) / 2 == c + b / 2;
  }

  lemma {:induction false} BitConcat(a: nat, b: nat, m: nat, j: nat)
    requires b < Power(2, m)
    ensures Bit(a * Power(2, m) + b, j) == if j < m then Bit(b, j) else Bit(a, j - m)
    decreases m
  {
    if m > 0 {
      Halved(a, Power(2, m - 1), b);
      if j > 0 {
        BitConcat(a, b / 2, m - 1, j - 1);
      }
    }
  }

  // ---------------------------------------------------------------- byte strings

  /** Bit `i` of a byte string, counted from the first bit on the wire. */
  function BitAt(s: seq<byte>, i: nat): nat
    requires i < 8 * |s|
  {
    Bit(s[i / 8], 7 - i % 8)
  }

  /** The first `p` bits of two strings of one length agree. */
  ghost predicate SamePrefix(a: seq<byte>, b: seq<byte>, p: nat)
    requires |a| == |b| && p <= 8 * |a|
  {
    forall i :: 0 <= i < p ==> BitAt(a, i) == BitAt(b, i)
  }

  lemma Pow8()
    ensures Power(2, 8) == 0x100
  {
    assert Power(2, 4) == 16 && Power(2, 6) == 4 * Power(2, 4);
  }

  lemma BytesDetermined(a: seq<byte>, b: seq<byte>)
    requires |a| == |b| && SamePrefix(a, b, 8 * |a|)
    ensures a == b
  {
    Pow8();
    forall k | 0 <= k < |a| ensures a[k] == b[k] {
      forall j | 0 <= j < 8 ensures Bit(a[k], j) == Bit(b[k], j) {
        assert BitAt(a, 8 * k + (7 - j)) == BitAt(b, 8 * k + (7 - j));
      }
      BitsDetermine(8, a[k], b[k]);
    }
  }

  /** How many of the first `p` bits lie in byte `k`. */
  function BitsIn(p: nat, k: nat): (r: nat)
    ensures r <= 8
  {
    if p <= 8 * k then 0 else if p >= 8 * k + 8 then 8 else p - 8 * k
  }

  function KeptByte(x: byte, bits: nat): (r: byte)
    requires bits <= 8
  {
    And(x, Mask(8, 8 - bits))
  }

  /** The string with every bit after the first `p` cleared. */
  function Masked(s: seq<byte>, p: nat): (r: seq<byte>)
    ensures |r| == |s|
  {
    seq(|s|, k requires 0 <= k < |s| => KeptByte(s[k], BitsIn(p, k)))
  }

  lemma MaskedBit(s: seq<byte>, p: nat, i: nat)
    requires i < 8 * |s|
    ensures BitAt(Masked(s, p), i) == if i < p then BitAt(s, i) else 0
  {
    var k, j := i / 8, 7 - i % 8;
    var m := 8 - BitsIn(p, k);
    AndBits(s[k], Mask(8, m), j);
    MaskBits(8, m, j);
    assert m <= j < 8 <==> i < p;
    Times01(Bit(s[k], j), Bit(Mask(8, m), j));
  }

  lemma Times01(x: nat, y: nat)
    requires y == 0 || y == 1
    ensures x * y == if y == 1 then x else 0
  {
  }

  /** Masking is canonical: two strings mask to one exactly when their first `p` bits agree. */
  lemma MaskedSame(a: seq<byte>, b: seq<byte>, p: nat)
    requires |a| == |b| && p <= 8 * |a|
    ensures Masked(a, p) == Masked(b, p) <==> SamePrefix(a, b, p)
    ensures SamePrefix(Masked(a, p), a, p)
  {
    hide BitAt, Masked;
    forall i | 0 <= i < 8 * |a|
      ensures BitAt(Masked(a, p), i) == (if i < p then BitAt(a, i) else 0)
      ensures BitAt(Masked(b, p), i) == if i < p then BitAt(b, i) else 0
    {
      MaskedBit(a, p, i);
      MaskedBit(b, p, i);
    }
    if SamePrefix(a, b, p) {
      BytesDetermined(Masked(a, p), Masked(b, p));
    }
    if Masked(a, p) == Masked(b, p) {
      forall i | 0 <= i < p ensures BitAt(a, i) == BitAt(b, i) {
        assert BitAt(Masked(a, p), i) == BitAt(Masked(b, p), i);
      }
    }
  }

  // ---------------------------------------------------------------- four bytes as one word

  /** The 32-bit word of four bytes in network order. */
  function Word(s: seq<byte>): (w: nat)
    requires |s| == 4
    ensures w < 0x1_0000_0000
  {
    U16(s, 0) * 0x1_0000 + U16(s, 2)
  }

  function WordBytes(w: nat): (s: seq<byte>)
    requires w < 0x1_0000_0000
    ensures |s| == 4
  {
    [w / 0x100_0000, w / 0x1_0000 % 0x100, w / 0x100 % 0x100, w % 0x100]
  }

  lemma WordOfBytes(w: nat)
    requires w < 0x1_0000_0000
    ensures Word(WordBytes(w)) == w
  {
    assert w / 0x1_0000 == w / 0x100 / 0x100;
    assert w / 0x100_0000 == w / 0x1_0000 / 0x100;
  }

  lemma Pow16()
    ensures Power(2, 16) == 0x1_0000
  {
    Pow8();
    assert Power(2, 12) == 16 * Power(2, 8) by {
      assert Power(2, 10) == 4 * Power(2, 8);
    }
    assert Power(2, 14) == 4 * Power(2, 12);
  }

  lemma WordBit(s: seq<byte>, i: nat)
    requires |s| == 4 && i < 32
    ensures Bit(Word(s), 31 - i) == BitAt(s, i)
  {
    hide Bit, Power;
    Pow8();
    Pow16();
    BitConcat(U16(s, 0), U16(s, 2), 16, 31 - i);
    if i < 16 {
      BitConcat(s[0], s[1], 8, 15 - i);
    } else {
      BitConcat(s[2], s[3], 8, 31 - i);
    }
  }

  lemma WordMasked(s: seq<byte>, p: nat)
    requires |s| == 4 && p <= 32
    ensures And(Word(s), Mask(32, 32 - p)) < 0x1_0000_0000
    ensures WordBytes(And(Word(s), Mask(32, 32 - p))) == Masked(s, p)
  {
    hide Word, WordBytes, Masked, BitAt, Mask;
    var w := And(Word(s), Mask(32, 32 - p));
    var t := WordBytes(w);
    WordOfBytes(w);
    forall i | 0 <= i < 32 ensures BitAt(t, i) == BitAt(Masked(s, p), i) {
      WordBit(t, i);
      WordBit(s, i);
      AndBits(Word(s), Mask(32, 32 - p), 31 - i);
      MaskBits(32, 32 - p, 31 - i);
      Times01(Bit(Word(s), 31 - i), Bit(Mask(32, 32 - p), 31 - i));
      MaskedBit(s, p, i);
    }
    BytesDetermined(t, Masked(s, p));
  }
}
