/** Contiguous substrings, suffixes, and text at a position. */
module Strings {

  predicate IsBlank(c: char) {
    c == ' ' || c == '\t' || c == '\r' || c == '\n'
  }

  predicate IsSuffix(s: string, w: string) {
    |s| <= |w| && w[|w| - |s|..] == s
  }

  /** `k` occurs contiguously somewhere in `text`. */
  predicate Occurs(k: string, text: string) {
    exists i :: 0 <= i <= |text| - |k| && OccursAt(k, text, i)
  }

  predicate OccursAt(k: string, text: string, i: int)
    requires 0 <= i <= |text| - |k|
  {
    text[i..i + |k|] == k
  }

  lemma OccursChars(k: string, t: string)
    requires Occurs(k, t)
    ensures forall j :: 0 <= j < |k| ==> k[j] in t
  {
    var i :| 0 <= i <= |t| - |k| && OccursAt(k, t, i);
    forall j | 0 <= j < |k| ensures k[j] in t {
      assert t[i + j] == t[i..i + |k|][j] == k[j];
    }
  }

  lemma OccursBehind(v: string, x: string, y: string)
    requires Occurs(v, y)
    ensures Occurs(v, x + y)
  {
    var i :| 0 <= i <= |y| - |v| && OccursAt(v, y, i);
    assert (x + y)[|x| + i..|x| + i + |v|] == y[i..i + |v|];
    assert OccursAt(v, x + y, |x| + i);
  }

  lemma OccursBefore(v: string, x: string, y: string)
    requires Occurs(v, x)
    ensures Occurs(v, x + y)
  {
    var i :| 0 <= i <= |x| - |v| && OccursAt(v, x, i);
    assert (x + y)[i..i + |v|] == x[i..i + |v|];
    assert OccursAt(v, x + y, i);
  }

  lemma OccursWhole(p: string)
    ensures Occurs(p, p) && Occurs("", p)
  {
    assert OccursAt(p, p, 0) && OccursAt("", p, 0);
  }

  lemma WholeOnly(p: string, t: string)
    requires Occurs(p, t) && |p| == |t|
    ensures p == t
  {
    var i :| 0 <= i <= |t| - |p| && OccursAt(p, t, i);
    assert t[0..|t|] == t;
  }

  lemma OccursFits(p: string, t: string)
    requires Occurs(p, t)
    ensures |p| <= |t|
  {
  }

  lemma SuffixOfPrefixOccurs(k: string, text: string, n: nat)
    requires n <= |text| && IsSuffix(k, text[..n])
    ensures Occurs(k, text)
  {
    assert OccursAt(k, text, n - |k|);
  }

  lemma OccursAsSuffix(k: string, text: string) returns (n: nat)
    requires Occurs(k, text)
    ensures n <= |text| && IsSuffix(k, text[..n])
    ensures k != [] ==> n > 0
  {
    var i :| 0 <= i <= |text| - |k| && OccursAt(k, text, i);
    n := i + |k|;
  }

  /** Of two suffixes of one string, the shorter is a suffix of the longer. */
  lemma SuffixesNest(s: string, u: string, t: string)
    requires IsSuffix(s, t) && IsSuffix(u, t) && |s| <= |u|
    ensures IsSuffix(s, u)
  {
    assert u[|u| - |s|..] == t[|t| - |u|..][|u| - |s|..] == t[|t| - |s|..];
  }

  lemma SuffixTrans(s: string, u: string, t: string)
    requires IsSuffix(s, u) && IsSuffix(u, t)
    ensures IsSuffix(s, t)
  {
    assert t[|t| - |s|..] == t[|t| - |u|..][|u| - |s|..];
  }

  lemma SuffixSnoc(s: string, t: string, c: char)
    ensures IsSuffix(s + [c], t + [c]) <==> IsSuffix(s, t)
  {
    if |s| <= |t| {
      assert (t + [c])[|t| - |s|..] == t[|t| - |s|..] + [c];
      if IsSuffix(s + [c], t + [c]) {
        assert t[|t| - |s|..] == (t[|t| - |s|..] + [c])[..|s|] == (s + [c])[..|s|] == s;
      }
    }
  }

  // ---------------------------------------------------------------- joined lists

  function Join(parts: seq<string>, c: char): string {
    if parts == [] then ""
    else if |parts| == 1 then parts[0]
    else parts[0] + ([c] + Join(parts[1..], c))
  }

  /** Pieces between separators; the empty text has one empty piece. */
  function Split(s: string, c: char): (r: seq<string>)
    ensures r != []
    decreases |s|
  {
    if s == "" then [""]
    else
      var r := Split(s[1..], c);
      if s[0] == c then [""] + r else [[s[0]] + r[0]] + r[1..]
  }

  lemma {:induction false} SplitPrefix(p: string, rest: string, c: char)
    requires c !in p
    ensures Split(p + rest, c) == [p + Split(rest, c)[0]] + Split(rest, c)[1..]
    decreases |p|
  {
    if p == "" {
      assert p + rest == rest;
      assert p + Split(rest, c)[0] == Split(rest, c)[0];
    } else {
      SplitPrefix(p[1..], rest, c);
      assert (p + rest)[1..] == p[1..] + rest;
      assert [p[0]] + (p[1..] + Split(rest, c)[0]) == p + Split(rest, c)[0];
    }
  }

  lemma {:induction false} SplitJoin(parts: seq<string>, c: char)
    requires parts != [] && forall i :: 0 <= i < |parts| ==> c !in parts[i]
    ensures Split(Join(parts, c), c) == parts
    decreases |parts|
  {
    if |parts| == 1 {
      SplitPrefix(parts[0], "", c);
      assert parts[0] + "" == parts[0];
    } else {
      var rest := Join(parts[1..], c);
      SplitJoin(parts[1..], c);
      SplitPrefix(parts[0], [c] + rest, c);
      assert ([c] + rest)[1..] == rest;
      assert parts[0] + "" == parts[0];
    }
  }

  lemma {:induction false} JoinNext(parts: seq<string>, x: string, c: char)
    ensures Join(parts + [x], c) == if parts == [] then x else Join(parts, c) + ([c] + x)
    decreases |parts|
  {
    if parts == [] {
      assert parts + [x] == [x];
    } else {
      assert (parts + [x])[1..] == parts[1..] + [x];
      JoinNext(parts[1..], x, c);
      if |parts| > 1 {
        assert parts[0] + ([c] + (Join(parts[1..], c) + ([c] + x))) == (parts[0] + ([c] + Join(parts[1..], c))) + ([c] + x);
      } else {
        assert parts[1..] == [];
      }
    }
  }

  // ---------------------------------------------------------------- text at a position

  /** `t` stands at position `p` of `s`. */
  predicate Stands(s: string, p: nat, t: string) {
    p + |t| <= |s| && forall j :: p <= j < p + |t| ==> s[j] == t[j - p]
  }

  lemma StandsSplit(s: string, p: nat, t: string, u: string)
    ensures Stands(s, p, t + u) <==> Stands(s, p, t) && Stands(s, p + |t|, u)
  {
    if Stands(s, p, t + u) {
      forall j | p <= j < p + |t| ensures s[j] == t[j - p] {
        assert (t + u)[j - p] == t[j - p];
      }
      forall j | p + |t| <= j < p + |t| + |u| ensures s[j] == u[j - (p + |t|)] {
        assert (t + u)[j - p] == u[j - (p + |t|)];
      }
    }
  }

  lemma StandsOne(s: string, p: nat, c: char, u: string)
    ensures Stands(s, p, [c] + u) <==> p < |s| && s[p] == c && Stands(s, p + 1, u)
  {
    StandsSplit(s, p, [c], u);
  }

  lemma StandsFits(s: string, p: nat, t: string)
    requires Stands(s, p, t)
    ensures p + |t| <= |s|
  {
  }

  lemma StandsSlice(s: string, p: nat, t: string)
    requires Stands(s, p, t)
    ensures s[p..p + |t|] == t
  {
  }

  lemma WholeStands(s: string)
    ensures Stands(s, 0, s)
  {
  }
}
