/** Pieces shared by the JA3 and JA4 fingerprints of a ClientHello. */
module Fingerprint {
  import opened Bytes
  import opened ClientHello

  // ---------------------------------------------------------------- lists without GREASE

  function FilterGrease(vs: seq<u16>): seq<u16> {
    if vs == [] then [] else (if IsGrease(vs[0]) then [] else [vs[0]]) + FilterGrease(vs[1..])
  }

  lemma {:induction false} FilterConcat(a: seq<u16>, b: seq<u16>)
    ensures FilterGrease(a + b) == FilterGrease(a) + FilterGrease(b)
  {
    if a == [] {
      assert a + b == b;
    } else {
      assert (a + b)[1..] == a[1..] + b;
      FilterConcat(a[1..], b);
    }
  }

  /** How often a value survives: not at all if GREASE, as often as it was there otherwise. */
  lemma {:induction false} FilterCounts(vs: seq<u16>, v: u16)
    ensures multiset(FilterGrease(vs))[v] == if IsGrease(v) then 0 else multiset(vs)[v]
  {
    if vs != [] {
      FilterCounts(vs[1..], v);
      assert vs == [vs[0]] + vs[1..];
    }
  }

  lemma NoGreaseSurvives(vs: seq<u16>)
    ensures forall v :: v in FilterGrease(vs) ==> v in vs && !IsGrease(v)
    ensures forall v :: v in vs && !IsGrease(v) ==> v in FilterGrease(vs)
  {
    forall v: u16 ensures v in FilterGrease(vs) <==> v in vs && !IsGrease(v) {
      FilterCounts(vs, v);
      assert v in multiset(FilterGrease(vs)) <==> v in FilterGrease(vs);
      assert v in multiset(vs) <==> v in vs;
    }
  }

  method FilterGrease16(vals: seq<u16>) returns (result: seq<u16>)
    ensures result == FilterGrease(vals)
  {
    result := [];
    for i := 0 to |vals|
      invariant result == FilterGrease(vals[..i])
    {
      FilterConcat(vals[..i], [vals[i]]);
      assert vals[..i + 1] == vals[..i] + [vals[i]];
      assert [vals[i]][1..] == [];
      if !IsGrease(vals[i]) {
        result := result + [vals[i]];
      }
    }
    assert vals[..|vals|] == vals;
  }
}
