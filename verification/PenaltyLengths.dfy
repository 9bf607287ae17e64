/** When bans have the length of the closed form, when they stall, and when a deadline moves back. */
module PenaltyLengths {
  import opened Int64
  import opened Numerals
  import opened PenaltyBox

  /** Lengths of at least a millisecond and a multiplier that does not shrink them. */
  predicate Growing(o: Options) {
    o.baseBanMs >= 1 && o.maxBanMs >= 1 && o.multiplier >= 1.0 && Fits(o.maxBanMs)
  }

  /** The recurrence on unbounded integers. */
  function Ideal(o: Options, n: nat): int
    requires n >= 1
  {
    Capped(o, if n == 1 then o.baseBanMs else Product(o, Ideal(o, n - 1)))
  }

  // ---------------------------------------------------------------- one step

  /** The multiplier adds less than a millisecond to this length. */
  predicate Idle(o: Options, last: int) {
    Times(last as real, o.multiplier - 1.0) < 1.0
  }

  lemma TruncMore(x: int, d: real)
    requires x >= 0 && d >= 0.0
    ensures Trunc(x as real + d) >= x && (Trunc(x as real + d) == x <==> d < 1.0)
  {
  }

  lemma Growth(o: Options, last: int)
    requires last >= 0 && o.multiplier >= 1.0
    ensures Product(o, last) >= last && (Product(o, last) == last <==> Idle(o, last))
  {
    hide Times, Trunc;
    TimesMore(last as real, o.multiplier);
    TimesOrdered(0.0, last as real, o.multiplier - 1.0);
    TruncMore(last, Times(last as real, o.multiplier - 1.0));
  }

  lemma TruncOrdered(x: real, y: real)
    requires 0.0 <= x <= y
    ensures 0 <= Trunc(x) <= Trunc(y)
  {
  }

  lemma ProductOrdered(o: Options, x: int, y: int)
    requires 0 <= x <= y && o.multiplier >= 1.0
    ensures 0 <= Product(o, x) <= Product(o, y)
    ensures Idle(o, y) ==> Idle(o, x)
  {
    hide Times, Trunc;
    TimesOrdered(0.0, x as real, o.multiplier);
    TimesOrdered(x as real, y as real, o.multiplier);
    TimesOrdered(x as real, y as real, o.multiplier - 1.0);
    TruncOrdered(Times(x as real, o.multiplier), Times(y as real, o.multiplier));
  }

  lemma {:induction false} IdealStep(o: Options, n: nat)
    requires Growing(o) && n >= 1
    ensures 1 <= Ideal(o, n) <= Ideal(o, n + 1) <= o.maxBanMs
    decreases n
  {
    hide Product, Idle;
    if n > 1 {
      IdealStep(o, n - 1);
    }
    Growth(o, Ideal(o, n));
  }

  /** The bans are those of the recurrence as long as the products fit. */
  lemma {:induction false} BanIsIdeal(wide: OutOfRange, o: Options, n: nat)
    requires Growing(o) && n >= 1
    requires forall k :: 1 <= k < n ==> Fits(Product(o, Ideal(o, k)))
    ensures Ban(wide, o, n) == Ideal(o, n)
  {
    hide Product;
    if n > 1 {
      BanIsIdeal(wide, o, n - 1);
      IdealStep(o, n - 1);
    } else {
      assert Ban(wide, o, 0) == 0;
    }
  }

  // ---------------------------------------------------------------- stalling

  /** The multiplier adds less than a millisecond to the first ban. */
  predicate Stalls(o: Options) {
    Idle(o, o.baseBanMs)
  }

  lemma {:induction false} StalledIdeal(o: Options, n: nat)
    requires Growing(o) && Stalls(o) && n >= 1
    ensures Ideal(o, n) == Min(o.baseBanMs, o.maxBanMs)
    ensures Fits(Product(o, Ideal(o, n)))
  {
    hide Product, Idle;
    var b := Min(o.baseBanMs, o.maxBanMs);
    ProductOrdered(o, b, o.baseBanMs);
    Growth(o, b);
    if n > 1 {
      StalledIdeal(o, n - 1);
    }
  }

  /** Otherwise each ban is longer than the one before it, up to the cap. */
  lemma {:induction false} IdealClimbs(o: Options, n: nat)
    requires Growing(o) && !Stalls(o) && n >= 1
    ensures Ideal(o, n) >= Min(o.baseBanMs + n - 1, o.maxBanMs)
  {
    hide Product, Idle;
    if n > 1 {
      IdealClimbs(o, n - 1);
      var last := Ideal(o, n - 1);
      IdealStep(o, n - 1);
      Growth(o, last);
      if last < o.maxBanMs {
        ProductOrdered(o, o.baseBanMs, last);
      }
    }
  }

  lemma CapReached(o: Options) returns (n: nat)
    requires Growing(o) && !Stalls(o)
    ensures n >= 1 && Ideal(o, n) == o.maxBanMs
  {
    hide Ideal, Idle;
    n := o.maxBanMs;
    IdealClimbs(o, n);
    IdealStep(o, n);
  }

  /** Every product the recurrence forms fits 64 bits. */
  predicate ProductsFit(o: Options) {
    Stalls(o) || Fits(Product(o, o.maxBanMs))
  }

  lemma ProductsFitExactly(o: Options)
    requires Growing(o)
    ensures ProductsFit(o) <==> forall n :: n >= 1 ==> Fits(Product(o, Ideal(o, n)))
  {
    hide Product, Ideal, Idle;
    if ProductsFit(o) {
      forall n | n >= 1 ensures Fits(Product(o, Ideal(o, n))) {
        if Stalls(o) {
          StalledIdeal(o, n);
        } else {
          IdealStep(o, n);
          ProductOrdered(o, Ideal(o, n), o.maxBanMs);
        }
      }
    } else {
      var n := CapReached(o);
      assert !Fits(Product(o, Ideal(o, n)));
    }
  }

  /** The first product that does not fit; all bans before it are those of the recurrence. */
  lemma FirstUnfit(o: Options) returns (n: nat)
    requires Growing(o) && !ProductsFit(o)
    ensures n >= 1 && !Fits(Product(o, Ideal(o, n)))
    ensures forall k :: 1 <= k < n ==> Fits(Product(o, Ideal(o, k)))
  {
    hide Product, Ideal, ProductsFit;
    ProductsFitExactly(o);
    n := 1;
    var top :| top >= 1 && !Fits(Product(o, Ideal(o, top)));
    while n < top && Fits(Product(o, Ideal(o, n)))
      invariant 1 <= n <= top
      invariant forall k :: 1 <= k < n ==> Fits(Product(o, Ideal(o, k)))
    {
      n := n + 1;
    }
  }

  // ---------------------------------------------------------------- deadlines

  /** A further violation never brings the end of a ban forward, in any run and whatever a conversion out of range yields. */
  ghost predicate NeverBack(o: Options) {
    forall wide: OutOfRange, evs: seq<Event>, now: int ::
      After(wide, o, evs + [Violation(now)]).bannedUntil >= After(wide, o, evs).bannedUntil
  }

  lemma StaysAhead(wide: OutOfRange, o: Options, evs: seq<Event>, now: int)
    requires Growing(o) && ProductsFit(o)
    ensures After(wide, o, evs + [Violation(now)]).bannedUntil >= After(wide, o, evs).bannedUntil
  {
    hide Ban, Ideal, NextBan;
    Snoc(evs, Violation(now));
    var all := evs + [Violation(now)];
    BanLength(wide, o, all);
    ProductsFitExactly(o);
    var n := Bans(o, After(wide, o, all).violations);
    if n >= 1 {
      BanIsIdeal(wide, o, n);
      IdealStep(o, n);
    }
  }

  lemma NeverBackExactly(o: Options)
    requires Growing(o)
    ensures NeverBack(o) <==> ProductsFit(o)
  {
    if ProductsFit(o) {
      forall wide: OutOfRange, evs: seq<Event>, now: int
        ensures After(wide, o, evs + [Violation(now)]).bannedUntil >= After(wide, o, evs).bannedUntil
      {
        StaysAhead(wide, o, evs, now);
      }
    } else {
      var wide, evs, now := MovesBack(o);
    }
  }

  /** The run on which it fails: violate again the moment the ban with the first product out of range is over. */
  lemma MovesBack(o: Options) returns (wide: OutOfRange, evs: seq<Event>, now: int)
    requires Growing(o) && !ProductsFit(o)
    ensures After(wide, o, evs + [Violation(now)]).bannedUntil < After(wide, o, evs).bannedUntil
  {
    hide Ideal, Product, Ban;
    wide := _ => -LIMIT;
    var n := FirstUnfit(o);
    evs := BansReached(wide, o, n);
    now := After(wide, o, evs).bannedUntil;
    Snoc(evs, Violation(now));
    BanLength(wide, o, evs);
    BanIsIdeal(wide, o, n);
    IdealStep(o, n);
    NextOf(wide, o, n);
  }

  // ---------------------------------------------------------------- stalled runs

  /** In no run does a ban differ from the first. */
  ghost predicate AllAlike(o: Options) {
    forall wide: OutOfRange, evs: seq<Event> ::
      var e := After(wide, o, evs);
      Bans(o, e.violations) >= 1 ==> e.lastBanMs == Min(o.baseBanMs, o.maxBanMs)
  }

  /** Bans never grow exactly when the multiplier adds less than a millisecond to the first, or that one has the cap. */
  lemma StallExactly(o: Options)
    requires Growing(o)
    ensures AllAlike(o) <==> Stalls(o) || (o.baseBanMs >= o.maxBanMs && ProductsFit(o))
  {
    hide Ban, Ideal, Product;
    if ProductsFit(o) {
      ProductsFitExactly(o);
      if Stalls(o) || o.baseBanMs >= o.maxBanMs {
        forall wide: OutOfRange, evs: seq<Event> | Bans(o, After(wide, o, evs).violations) >= 1
          ensures After(wide, o, evs).lastBanMs == Min(o.baseBanMs, o.maxBanMs)
        {
          var n := Bans(o, After(wide, o, evs).violations);
          BanLength(wide, o, evs);
          BanIsIdeal(wide, o, n);
          if Stalls(o) {
            StalledIdeal(o, n);
          } else {
            IdealClimbs(o, n);
            IdealStep(o, n);
          }
        }
      } else {
        var wide: OutOfRange := _ => 0;
        var n := CapReached(o);
        var evs := BansReached(wide, o, n);
        BanLength(wide, o, evs);
        BanIsIdeal(wide, o, n);
      }
    } else {
      UnfitDiffers(o);
    }
  }

  /** If a product does not fit, the next ban can have any length up to the cap. */
  lemma UnfitDiffers(o: Options)
    requires Growing(o) && !ProductsFit(o)
    ensures !AllAlike(o)
  {
    var wide, evs, n := ZeroAfterUnfit(o);
  }

  lemma ZeroAfterUnfit(o: Options) returns (wide: OutOfRange, evs: seq<Event>, n: nat)
    requires Growing(o) && !ProductsFit(o)
    ensures n >= 1 && Bans(o, After(wide, o, evs).violations) == n + 1 && After(wide, o, evs).lastBanMs == 0
  {
    hide Ideal, Product, Ban;
    wide := _ => 0;
    n := FirstUnfit(o);
    evs := BansReached(wide, o, n + 1);
    BanLength(wide, o, evs);
    BanIsIdeal(wide, o, n);
    IdealStep(o, n);
    NextOf(wide, o, n);
  }

  lemma NextOf(wide: OutOfRange, o: Options, n: nat)
    ensures Ban(wide, o, n + 1) == NextBan(wide, o, Ban(wide, o, n))
  {
  }

  // ---------------------------------------------------------------- the closed form

  /** Base times the multiplier to the power `k`. */
  function Raw(o: Options, k: nat): real {
    Times(o.baseBanMs as real, RealPower(o.multiplier, k))
  }

  predicate IsWhole(x: real) {
    x == x.Floor as real
  }

  function Closed(o: Options, n: nat): real
    requires n >= 1
  {
    AtMost(Raw(o, n - 1), o.maxBanMs)
  }

  /** No length below the cap has a fraction to lose. */
  ghost predicate NothingCut(o: Options) {
    forall k :: 0 <= k && Raw(o, k) < o.maxBanMs as real ==> IsWhole(Raw(o, k))
  }

  lemma Regroup(b: real, m: real, p: real)
    ensures Times(b, Times(m, p)) == Times(Times(b, p), m)
  {
  }

  lemma TimesGrows(u: real, m: real)
    requires u >= 0.0 && m >= 1.0
    ensures Times(u, m) >= u
  {
    TimesMore(u, m);
    TimesOrdered(0.0, u, m - 1.0);
  }

  lemma {:induction false} RawNext(o: Options, k: nat)
    requires Growing(o)
    ensures Raw(o, k + 1) == Times(Raw(o, k), o.multiplier) && Raw(o, k) >= 1.0
    decreases k
  {
    hide Times;
    Regroup(o.baseBanMs as real, o.multiplier, RealPower(o.multiplier, k));
    if k > 0 {
      RawNext(o, k - 1);
      TimesGrows(Raw(o, k - 1), o.multiplier);
    } else {
      RawFirst(o);
    }
  }

  function AtMost(u: real, cap: int): real {
    if u < cap as real then u else cap as real
  }

  lemma CutWhole(o: Options, x: real)
    requires x >= 0.0 && (x < o.maxBanMs as real ==> IsWhole(x))
    ensures Capped(o, Trunc(x)) as real == AtMost(x, o.maxBanMs)
  {
  }

  /** One step of the recurrence from a length of the closed form. */
  lemma ClosedStep(o: Options, last: int, u: real)
    requires Growing(o) && last >= 1 && u >= 1.0 && last as real == AtMost(u, o.maxBanMs)
    requires Times(u, o.multiplier) < o.maxBanMs as real ==> IsWhole(Times(u, o.multiplier))
    ensures Capped(o, Product(o, last)) as real == AtMost(Times(u, o.multiplier), o.maxBanMs)
  {
    hide IsWhole, Trunc, Times;
    TimesGrows(u, o.multiplier);
    if u < o.maxBanMs as real {
      CutWhole(o, Times(u, o.multiplier));
    } else {
      hide Product;
      Growth(o, o.maxBanMs);
    }
  }

  lemma {:induction false} IdealIsClosed(o: Options, n: nat)
    requires Growing(o) && NothingCut(o) && n >= 1
    ensures Ideal(o, n) as real == Closed(o, n)
  {
    hide Product, Raw, IsWhole, Times;
    if n > 1 {
      IdealIsClosed(o, n - 1);
      IdealStep(o, n - 1);
      RawNext(o, n - 2);
      ClosedStep(o, Ideal(o, n - 1), Raw(o, n - 2));
    } else {
      RawFirst(o);
    }
  }

  lemma RawFirst(o: Options)
    ensures Raw(o, 0) == o.baseBanMs as real
  {
    assert RealPower(o.multiplier, 0) == 1.0;
  }

  /** In every run the length of the latest ban is the closed form, capped once, whatever a conversion out of range yields. */
  ghost predicate AllClosed(o: Options) {
    forall wide: OutOfRange, evs: seq<Event> ::
      var e := After(wide, o, evs);
      Bans(o, e.violations) >= 1 ==> e.lastBanMs as real == Closed(o, Bans(o, e.violations))
  }

  lemma ClosedNeedsWhole(o: Options)
    requires Growing(o) && AllClosed(o)
    ensures NothingCut(o)
  {
    hide Ban, Raw;
    var wide: OutOfRange := _ => 0;
    forall k | 0 <= k && Raw(o, k) < o.maxBanMs as real ensures IsWhole(Raw(o, k)) {
      var evs := BansReached(wide, o, k + 1);
      assert After(wide, o, evs).lastBanMs as real == Closed(o, k + 1);
    }
  }

  lemma UnfitNotClosed(o: Options)
    requires Growing(o) && !ProductsFit(o)
    ensures !AllClosed(o)
  {
    hide After, Raw;
    var wide, evs, n := ZeroAfterUnfit(o);
    RawNext(o, n);
    assert After(wide, o, evs).lastBanMs as real != Closed(o, n + 1);
  }

  /**
   For every multiplier from 1 on, in all runs the n-th ban lasts the smaller of base * m^(n-1) and
   the cap, if and only if no base * m^k below the cap has a fraction and every product fits 64 bits.
   */
  lemma ClosedExactly(o: Options)
    requires Growing(o)
    ensures AllClosed(o) <==> NothingCut(o) && ProductsFit(o)
  {
    hide Ban, Ideal, Product, Raw;
    if AllClosed(o) {
      ClosedNeedsWhole(o);
    }
    if !ProductsFit(o) {
      UnfitNotClosed(o);
    }
    if NothingCut(o) && ProductsFit(o) {
      ProductsFitExactly(o);
      forall wide: OutOfRange, evs: seq<Event> | Bans(o, After(wide, o, evs).violations) >= 1
        ensures After(wide, o, evs).lastBanMs as real == Closed(o, Bans(o, After(wide, o, evs).violations))
      {
        var n := Bans(o, After(wide, o, evs).violations);
        BanLength(wide, o, evs);
        BanIsIdeal(wide, o, n);
        IdealIsClosed(o, n);
      }
    }
  }

  lemma {:induction false} WholePower(m: nat, k: nat)
    ensures RealPower(m as real, k) == Power(m, k) as real
  {
    hide Times;
    if k > 0 {
      WholePower(m, k - 1);
      TimesWhole(m, Power(m, k - 1));
    }
  }

  lemma WholeCut(x: int)
    ensures IsWhole(x as real) && Trunc(x as real) == x
  {
  }

  /** A whole multiplier cuts nothing, so only the products matter. */
  lemma WholeMultiplier(o: Options, m: nat)
    requires Growing(o) && o.multiplier == m as real
    ensures NothingCut(o) && (AllClosed(o) <==> Stalls(o) || Fits(o.maxBanMs * m))
  {
    hide AllClosed, Idle, Times, Trunc, IsWhole, Power, RealPower;
    forall k | 0 <= k && Raw(o, k) < o.maxBanMs as real ensures IsWhole(Raw(o, k)) {
      WholePower(m, k);
      TimesWhole(o.baseBanMs, Power(m, k));
      WholeCut(o.baseBanMs * Power(m, k));
    }
    TimesWhole(o.maxBanMs, m);
    WholeCut(o.maxBanMs * m);
    ClosedExactly(o);
  }

  /** With multiplier 1.5 a first ban of 1 ms is never outgrown. */
  lemma FractionStalls(o: Options)
    requires o.baseBanMs == 1 && o.multiplier == 1.5 && o.maxBanMs >= 3 && Fits(o.maxBanMs)
    ensures AllAlike(o) && !AllClosed(o)
  {
    StallExactly(o);
    ClosedExactly(o);
    assert RealPower(1.5, 1) == 1.5;
    assert !IsWhole(Raw(o, 1));
  }
}
