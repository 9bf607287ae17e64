/** When the compiled matcher reports exactly the rules that accept the request. */
module MatcherExactness {
  import opened RequestTexts
  import opened RuleMatcher

  // ---------------------------------------------------------------- reported against accepted

  /** The rule's group is looked at for this request. */
  predicate IsActive(rule: Rule, d: Request) {
    match GroupOf(rule)
    case BodyGroup => d.body != ""
    case HeadersGroup => d.headers != ""
    case _ => true
  }

  /** Accepted by its condition but dropped by a prefilter. */
  ghost predicate Missed(eng: Engine, rules: seq<Rule>, d: Request, rule: Rule) {
    Accepts(eng, rule, d) && (!IsActive(rule, d) || Prefiltered(rules, d, rule))
  }

  ghost predicate Survives(eng: Engine, rules: seq<Rule>, d: Request, rule: Rule) {
    Accepts(eng, rule, d) && IsActive(rule, d) && !Prefiltered(rules, d, rule)
  }

  function One(b: bool, r: Rule): multiset<Rule> {
    if b then multiset{r} else multiset{}
  }

  ghost function Accepted(eng: Engine, rs: seq<Rule>, d: Request): multiset<Rule> {
    if rs == [] then multiset{}
    else Accepted(eng, rs[..|rs| - 1], d) + One(Accepts(eng, rs[|rs| - 1], d), rs[|rs| - 1])
  }

  ghost function Survivors(eng: Engine, rules: seq<Rule>, rs: seq<Rule>, d: Request): multiset<Rule> {
    if rs == [] then multiset{}
    else Survivors(eng, rules, rs[..|rs| - 1], d) + One(Survives(eng, rules, d, rs[|rs| - 1]), rs[|rs| - 1])
  }

  ghost function AllMissed(eng: Engine, rules: seq<Rule>, rs: seq<Rule>, d: Request): multiset<Rule> {
    if rs == [] then multiset{}
    else AllMissed(eng, rules, rs[..|rs| - 1], d) + One(Missed(eng, rules, d, rs[|rs| - 1]), rs[|rs| - 1])
  }

  /** The matcher never reports a rule that its condition rejects. */
  lemma {:induction false} ReportedAccepts(eng: Engine, rules: seq<Rule>, d: Request, active: seq<Rule>)
    ensures forall r :: r in Reported(eng, rules, d, active) ==> r in active && Accepts(eng, r, d) && !Prefiltered(rules, d, r)
    decreases |active|
  {
    hide Accepts, Prefiltered;
    if active != [] {
      ReportedAccepts(eng, rules, d, active[..|active| - 1]);
    }
  }

  lemma {:induction false} ReportedAppend(eng: Engine, rules: seq<Rule>, d: Request, xs: seq<Rule>, ys: seq<Rule>)
    ensures Reported(eng, rules, d, xs + ys) == Reported(eng, rules, d, xs) + Reported(eng, rules, d, ys)
    decreases |ys|
  {
    hide Accepts, Prefiltered;
    if ys == [] {
      assert xs + ys == xs;
    } else {
      var zs, y := ys[..|ys| - 1], ys[|ys| - 1];
      assert (xs + ys)[..|xs + ys| - 1] == xs + zs;
      ReportedAppend(eng, rules, d, xs, zs);
    }
  }

  ghost function ReportedOf(eng: Engine, rules: seq<Rule>, d: Request, rs: seq<Rule>, g: Group): multiset<Rule> {
    multiset(Reported(eng, rules, d, InGroup(rs, g)))
  }

  /** One more rule adds to its own group only. */
  lemma ReportedOfSnoc(eng: Engine, rules: seq<Rule>, d: Request, rs: seq<Rule>, g: Group)
    requires rs != []
    ensures var r := rs[|rs| - 1];
            ReportedOf(eng, rules, d, rs, g) == ReportedOf(eng, rules, d, rs[..|rs| - 1], g) +
              One(GroupOf(r) == g && !Prefiltered(rules, d, r) && Accepts(eng, r, d), r)
  {
    hide Accepts, Prefiltered, GroupOf;
    var r, init := rs[|rs| - 1], rs[..|rs| - 1];
    var before := InGroup(init, g);
    if GroupOf(r) == g {
      assert (before + [r])[..|before|] == before;
    } else {
      assert before + [] == before;
    }
  }

  /** What is reported over the groups is what survives over the rules, in some order. */
  lemma {:induction false} GroupsCover(eng: Engine, rules: seq<Rule>, d: Request, rs: seq<Rule>)
    ensures Survivors(eng, rules, rs, d) ==
            ReportedOf(eng, rules, d, rs, AnyGroup) + ReportedOf(eng, rules, d, rs, UrlGroup)
              + When(d.body != "", ReportedOf(eng, rules, d, rs, BodyGroup))
              + When(d.headers != "", ReportedOf(eng, rules, d, rs, HeadersGroup))
    decreases |rs|
  {
    hide Accepts, Prefiltered, GroupOf, ReportedOf, One, When;
    if rs == [] {
      NothingReported(eng, rules, d);
      NeverAdded(d.body != "");
      NeverAdded(d.headers != "");
    } else {
      var r, init := rs[|rs| - 1], rs[..|rs| - 1];
      ReportedOfSnoc(eng, rules, d, rs, AnyGroup);
      ReportedOfSnoc(eng, rules, d, rs, UrlGroup);
      ReportedOfSnoc(eng, rules, d, rs, BodyGroup);
      ReportedOfSnoc(eng, rules, d, rs, HeadersGroup);
      GroupsCover(eng, rules, d, init);
      var b := !Prefiltered(rules, d, r) && Accepts(eng, r, d);
      AddedTo(ReportedOf(eng, rules, d, init, AnyGroup), ReportedOf(eng, rules, d, init, UrlGroup),
              ReportedOf(eng, rules, d, init, BodyGroup), ReportedOf(eng, rules, d, init, HeadersGroup),
              One(GroupOf(r) == AnyGroup && b, r), One(GroupOf(r) == UrlGroup && b, r),
              One(GroupOf(r) == BodyGroup && b, r), One(GroupOf(r) == HeadersGroup && b, r), d.body != "", d.headers != "");
      OneGroup(GroupOf(r), b, d.body != "", d.headers != "", r);
    }
  }

  function When(c: bool, m: multiset<Rule>): multiset<Rule> {
    if c then m else multiset{}
  }

  lemma NeverAdded(c: bool)
    ensures When(c, multiset{}) == multiset{}
  {
  }

  lemma AddedTo(a: multiset<Rule>, u: multiset<Rule>, b: multiset<Rule>, h: multiset<Rule>,
                a': multiset<Rule>, u': multiset<Rule>, b': multiset<Rule>, h': multiset<Rule>, body: bool, headers: bool)
    ensures (a + a') + (u + u') + When(body, b + b') + When(headers, h + h') ==
            (a + u + When(body, b) + When(headers, h)) + (a' + u' + When(body, b') + When(headers, h'))
  {
  }

  /** A rule counts once, in its own group, if that group is looked at. */
  lemma OneGroup(g: Group, b: bool, body: bool, headers: bool, r: Rule)
    ensures One(b && (g == BodyGroup ==> body) && (g == HeadersGroup ==> headers), r) ==
            One(g == AnyGroup && b, r) + One(g == UrlGroup && b, r)
              + When(body, One(g == BodyGroup && b, r)) + When(headers, One(g == HeadersGroup && b, r))
  {
  }

  lemma ReportedIsSurvivors(eng: Engine, rules: seq<Rule>, d: Request)
    ensures multiset(Reported(eng, rules, d, Active(rules, d))) == Survivors(eng, rules, rules, d)
  {
    hide Reported, InGroup, Survivors;
    var any, url := InGroup(rules, AnyGroup), InGroup(rules, UrlGroup);
    var body := if d.body != "" then InGroup(rules, BodyGroup) else [];
    var headers := if d.headers != "" then InGroup(rules, HeadersGroup) else [];
    ReportedAppend(eng, rules, d, any + url + body, headers);
    ReportedAppend(eng, rules, d, any + url, body);
    ReportedAppend(eng, rules, d, any, url);
    NothingReported(eng, rules, d);
    GroupsCover(eng, rules, d, rules);
  }

  lemma NothingReported(eng: Engine, rules: seq<Rule>, d: Request)
    ensures Reported(eng, rules, d, []) == []
    ensures forall g :: ReportedOf(eng, rules, d, [], g) == multiset{}
  {
  }

  lemma {:induction false} AcceptedSplit(eng: Engine, rules: seq<Rule>, rs: seq<Rule>, d: Request)
    ensures Accepted(eng, rs, d) == Survivors(eng, rules, rs, d) + AllMissed(eng, rules, rs, d)
    decreases |rs|
  {
    hide Accepts, Prefiltered, IsActive;
    if rs != [] {
      AcceptedSplit(eng, rules, rs[..|rs| - 1], d);
    }
  }

  lemma {:induction false} NoneMissed(eng: Engine, rules: seq<Rule>, rs: seq<Rule>, d: Request)
    ensures AllMissed(eng, rules, rs, d) == multiset{} <==> forall i :: 0 <= i < |rs| ==> !Missed(eng, rules, d, rs[i])
    decreases |rs|
  {
    hide Missed;
    if rs != [] {
      NoneMissed(eng, rules, rs[..|rs| - 1], d);
      if Missed(eng, rules, d, rs[|rs| - 1]) {
        assert rs[|rs| - 1] in AllMissed(eng, rules, rs, d);
      }
    }
  }

  /**
   On one request the matcher reports exactly the accepted rules, in some order, if and only if no
   accepted rule lies in a skipped group or lacks a hit of a hook filed under its name.
   */
  lemma ExactUnlessMissed(eng: Engine, rules: seq<Rule>, d: Request)
    ensures multiset(Reported(eng, rules, d, Active(rules, d))) == Accepted(eng, rules, d) <==>
            forall i :: 0 <= i < |rules| ==> !Missed(eng, rules, d, rules[i])
  {
    hide Reported, Survivors, Accepted, Missed, AllMissed, Active;
    ReportedIsSurvivors(eng, rules, d);
    AcceptedSplit(eng, rules, rules, d);
    NoneMissed(eng, rules, rules, d);
    NothingAdded(Survivors(eng, rules, rules, d), AllMissed(eng, rules, rules, d));
  }

  lemma NothingAdded(s: multiset<Rule>, m: multiset<Rule>)
    ensures s == s + m <==> m == multiset{}
  {
    if m != multiset{} {
      var r :| r in m;
      assert (s + m)[r] > s[r];
    }
  }
}
