/** A condition on the rules alone under which the compiled matcher is exact, and why it is needed. */
module MatcherSyntax {
  import opened RequestTexts
  import opened RuleSyntax
  import opened Int64
  import opened Numerals
  import opened Strings
  import opened RuleMatcher
  import opened MatcherExactness
  import opened Wrappers

  // ---------------------------------------------------------------- occurrences

  lemma OccursInside(k: string, x: string, a: string, y: string)
    requires Occurs(k, a)
    ensures Occurs(k, x + (a + y))
  {
    OccursBefore(k, a, y);
    OccursBehind(k, x, a + y);
  }

  lemma LowerJoin(x: string, y: string)
    ensures Lower(x + y) == Lower(x) + Lower(y)
  {
  }

  /** Lower-casing both sides keeps an occurrence. */
  lemma OccursLower(k: string, t: string)
    requires Occurs(k, t)
    ensures Occurs(Lower(k), Lower(t))
  {
    var i :| 0 <= i <= |t| - |k| && OccursAt(k, t, i);
    assert t[i..i + |k|] == k;
    forall j | 0 <= j < |k| ensures Lower(t)[i..i + |k|][j] == Lower(k)[j] {
      assert t[i..i + |k|][j] == t[i + j];
    }
    assert Lower(t)[i..i + |k|] == Lower(k);
    assert OccursAt(Lower(k), Lower(t), i);
  }

  lemma Absent(k: string, t: string, j: nat)
    requires j < |k| && k[j] !in t
    ensures !Occurs(k, t)
  {
    if Occurs(k, t) {
      OccursChars(k, t);
    }
  }

  // ---------------------------------------------------------------- what a rule's text guarantees

  /** No request gives this surface any text. */
  predicate AlwaysEmpty(s: Surface) {
    s in {SessionId, GeoIp, Fingerprint, Rate}
  }

  /** The surface is contained in the text the automaton scans. */
  predicate PartOfFull(s: Surface) {
    s in {Url, RawUrl, QueryString, Body, RawBody, HeaderString, CookieString, Full} || FromHeaders(s)
  }

  predicate FromHeaders(s: Surface) {
    s in {ContentType, Hostname}
  }

  predicate EmptyWhenSkipped(g: Group, s: Surface) {
    AlwaysEmpty(s) || (g == BodyGroup && s in {Body, RawBody}) || (g == HeadersGroup && (s == HeaderString || FromHeaders(s)))
  }

  /** Two surfaces are header values, one is a clock reading. */
  lemma PreparedShape(d: Request)
    requires Prepared(d)
    ensures Occurs(d.contentType, d.headers) && Occurs(d.hostname, d.headers) && IsDigits(d.timestamp)
    ensures forall p :: Occurs(p, d.timestamp) ==> InClock(p)
  {
    hide Occurs, HeaderValue, Flattened, Spread, Unblocked, Decimal, InClock;
    var r: HttpRequest, now: nat :|
      DistinctKeys(r.query) && DistinctKeys(r.headers) && DistinctKeys(r.cookies) && now < LIMIT && d == Prepare(r, now);
    HeaderValueOccurs(r.headers, "content-type", "Content-Type");
    HeaderValueOccurs(r.headers, "host", "Host");
    DecimalPositional(now);
    forall p | Occurs(p, d.timestamp) ensures InClock(p) {
      ReadingHolds(p, now);
    }
  }

  predicate Dead(rule: Rule, x: string) {
    x !in rule.strings || !rule.strings[x].hasCompiled
  }

  /** Wherever this pattern matches, its keyword occurs in the lower-cased text. */
  predicate Usable(def: RuleString) {
    IsHook(def) && (def.nocase || def.pattern == Lower(def.pattern))
  }

  predicate Forcing(rule: Rule, x: string) {
    Dead(rule, x) || Usable(rule.strings[x])
  }

  /** If the condition holds, some usable literal of the rule occurs in the scanned text. */
  predicate Forces(rule: Rule, c: Condition) {
    match c
    case And(l, r) => Forces(rule, l) || Forces(rule, r)
    case Or(l, r) => Forces(rule, l) && Forces(rule, r)
    case Not(_) => false
    case Match(x) => Forcing(rule, x)
    case MatchIn(x, t) =>
      Dead(rule, x) || AlwaysEmpty(ResolveTarget(t, rule)) ||
      (Usable(rule.strings[x]) && PartOfFull(ResolveTarget(t, rule)))
    case AnyOfThem => forall x :: x in rule.strings ==> Forcing(rule, x)
    case AllOfThem => exists x :: x in rule.strings && Forcing(rule, x)
    case AnyOf(vars) => forall i :: 0 <= i < |vars| ==> Forcing(rule, vars[i])
    case AllOf(vars) => exists i :: 0 <= i < |vars| && Forcing(rule, vars[i])
    case Boolean(b) => !b
  }

  /** The condition cannot hold while the rule's group is skipped. */
  predicate Silent(rule: Rule, g: Group, c: Condition) {
    match c
    case And(l, r) => Silent(rule, g, l) || Silent(rule, g, r)
    case Or(l, r) => Silent(rule, g, l) && Silent(rule, g, r)
    case Not(_) => false
    case Match(x) => Dead(rule, x)
    case MatchIn(x, t) => Dead(rule, x) || EmptyWhenSkipped(g, ResolveTarget(t, rule))
    case AnyOfThem => forall x :: x in rule.strings ==> Dead(rule, x)
    case AllOfThem => exists x :: x in rule.strings && Dead(rule, x)
    case AnyOf(vars) => forall i :: 0 <= i < |vars| ==> Dead(rule, vars[i])
    case AllOf(vars) => exists i :: 0 <= i < |vars| && Dead(rule, vars[i])
    case Boolean(b) => !b
  }

  /** No request makes a prefilter drop this rule wrongly. */
  ghost predicate Safe(rules: seq<Rule>, rule: Rule) {
    && (LiteralName(rules, rule.name) ==> rule.condition.Some? && Forces(rule, rule.condition.value))
    && (GroupOf(rule) in {BodyGroup, HeadersGroup} ==>
          rule.condition.Some? && Silent(rule, GroupOf(rule), rule.condition.value))
  }

  // ---------------------------------------------------------------- the condition suffices

  /** The keyword of some pattern of the rule occurs in the lower-cased text. */
  ghost predicate OwnHit(rule: Rule, text: string) {
    exists x :: x in rule.strings && IsHook(rule.strings[x]) && Occurs(Keyword(rule.strings[x]), Lower(text))
  }

  lemma UsableHit(eng: Engine, rule: Rule, x: string, text: string)
    requires x in rule.strings && Usable(rule.strings[x]) && TestPattern(eng, rule.strings[x], text)
    ensures Occurs(Keyword(rule.strings[x]), Lower(text))
  {
    if !rule.strings[x].nocase {
      OccursLower(rule.strings[x].pattern, text);
    }
  }

  /** What stands before and behind a part of the request in the scanned text. */
  lemma PartSplit(d: Request, s: Surface) returns (x: string, y: string)
    requires PartOfFull(s) && !FromHeaders(s)
    ensures FullText(d) == x + (Text(d, s) + y)
  {
    var behindHeaders := "\n" + d.cookies;
    var behindBody := "\n" + (d.headers + behindHeaders);
    var behindQuery := "\n" + (d.body + behindBody);
    var behindUrl := "\n" + (d.query + behindQuery);
    x, y := "", "";
    match s
    case Url => y := behindUrl;
    case RawUrl => y := behindUrl;
    case QueryString => x, y := d.url + "\n", behindQuery;
    case Body => x, y := BeforeBody(d), behindBody;
    case RawBody => x, y := BeforeBody(d), behindBody;
    case HeaderString => x, y := BeforeBody(d) + (d.body + "\n"), behindHeaders;
    case CookieString => x := BeforeBody(d) + (d.body + ("\n" + (d.headers + "\n")));
    case Full =>
  }

  function BeforeBody(d: Request): string {
    d.url + ("\n" + (d.query + "\n"))
  }

  lemma OccursTrans(k: string, a: string, t: string)
    requires Occurs(k, a) && Occurs(a, t)
    ensures Occurs(k, t)
  {
    var i :| 0 <= i <= |t| - |a| && OccursAt(a, t, i);
    assert t == t[..i] + (a + t[i + |a|..]);
    OccursInside(k, t[..i], a, t[i + |a|..]);
  }

  /** A hit in a part of the request is a hit in the whole. */
  lemma PartHit(k: string, d: Request, s: Surface)
    requires Prepared(d) && PartOfFull(s) && Occurs(k, Lower(Text(d, s)))
    ensures Occurs(k, Lower(FullText(d)))
    decreases FromHeaders(s)
  {
    hide FullText, Occurs, Lower, Prepared;
    PreparedShape(d);
    if FromHeaders(s) {
      OccursLower(Text(d, s), d.headers);
      OccursTrans(k, Lower(Text(d, s)), Lower(d.headers));
      PartHit(k, d, HeaderString);
    } else {
      var x, y := PartSplit(d, s);
      Joined(k, x, Text(d, s), y, FullText(d));
    }
  }

  lemma Joined(k: string, x: string, a: string, y: string, full: string)
    requires Occurs(k, Lower(a)) && full == x + (a + y)
    ensures Occurs(k, Lower(full))
  {
    hide Occurs, Lower;
    LowerJoin(a, y);
    LowerJoin(x, a + y);
    OccursInside(k, Lower(x), Lower(a), Lower(y));
  }

  lemma ForcingHit(eng: Engine, rule: Rule, x: string, d: Request)
    requires Forcing(rule, x) && Hits(eng, rule, x, FullText(d))
    ensures OwnHit(rule, FullText(d))
  {
    UsableHit(eng, rule, x, FullText(d));
  }

  lemma {:induction false} ForcedHit(eng: Engine, rule: Rule, c: Condition, d: Request)
    requires Prepared(d) && Forces(rule, c) && Evaluate(eng, c, rule, d)
    ensures OwnHit(rule, FullText(d))
    decreases c
  {
    hide OwnHit, TestPattern, Usable, FullText, ResolveTarget, Prepared;
    match c
    case And(l, r) =>
      if Forces(rule, l) {
        ForcedHit(eng, rule, l, d);
      } else {
        ForcedHit(eng, rule, r, d);
      }
    case Or(l, r) =>
      if Evaluate(eng, l, rule, d) {
        ForcedHit(eng, rule, l, d);
      } else {
        ForcedHit(eng, rule, r, d);
      }
    case Match(x) =>
      ForcingHit(eng, rule, x, d);
    case MatchIn(x, t) =>
      ForcedInHit(eng, rule, x, ResolveTarget(t, rule), d);
    case AnyOfThem =>
      var x :| x in rule.strings && TestPattern(eng, rule.strings[x], FullText(d));
      ForcingHit(eng, rule, x, d);
    case AllOfThem =>
      var x :| x in rule.strings && Forcing(rule, x);
      ForcingHit(eng, rule, x, d);
    case AnyOf(vars) =>
      var i :| 0 <= i < |vars| && Hits(eng, rule, vars[i], FullText(d));
      ForcingHit(eng, rule, vars[i], d);
    case AllOf(vars) =>
      var i :| 0 <= i < |vars| && Forcing(rule, vars[i]);
      ForcingHit(eng, rule, vars[i], d);
    case _ =>
  }

  lemma ForcedInHit(eng: Engine, rule: Rule, x: string, s: Surface, d: Request)
    requires Prepared(d) && Hits(eng, rule, x, Text(d, s))
    requires Dead(rule, x) || AlwaysEmpty(s) || (Usable(rule.strings[x]) && PartOfFull(s))
    ensures OwnHit(rule, FullText(d))
  {
    hide Prepared;
    UsableHit(eng, rule, x, Text(d, s));
    PartHit(Keyword(rule.strings[x]), d, s);
  }

  lemma {:induction false} SilentFalse(eng: Engine, rule: Rule, c: Condition, d: Request)
    requires Prepared(d) && Silent(rule, GroupOf(rule), c) && !IsActive(rule, d)
    ensures !Evaluate(eng, c, rule, d)
    decreases c
  {
    hide FullText, ResolveTarget, GroupOf, Mapped, Named, Prepared;
    PreparedShape(d);
    match c
    case And(l, r) =>
      if Silent(rule, GroupOf(rule), l) {
        SilentFalse(eng, rule, l, d);
      } else {
        SilentFalse(eng, rule, r, d);
      }
    case Or(l, r) =>
      SilentFalse(eng, rule, l, d);
      SilentFalse(eng, rule, r, d);
    case AllOf(vars) =>
      var i :| 0 <= i < |vars| && Dead(rule, vars[i]);
      assert !Hits(eng, rule, vars[i], FullText(d));
    case _ =>
  }

  lemma OwnNameHit(rules: seq<Rule>, i: nat, text: string)
    requires i < |rules| && OwnHit(rules[i], text)
    ensures NameHit(rules, text, rules[i].name)
  {
  }

  /** Main result: if every rule is safe, the matcher reports exactly the accepted rules of every prepared request. */
  lemma SafeRulesExact(eng: Engine, rules: seq<Rule>, d: Request)
    requires Prepared(d) && forall i :: 0 <= i < |rules| ==> Safe(rules, rules[i])
    ensures multiset(Reported(eng, rules, d, Active(rules, d))) == Accepted(eng, rules, d)
  {
    hide Evaluate, Forces, Silent, GroupOf, OwnHit, NameHit, Reported, Active, Accepted, Prepared;
    forall i | 0 <= i < |rules| ensures !Missed(eng, rules, d, rules[i]) {
      var rule := rules[i];
      assert Safe(rules, rule);
      if Accepts(eng, rule, d) {
        if !IsActive(rule, d) {
          SilentFalse(eng, rule, rule.condition.value, d);
        }
        if LiteralName(rules, rule.name) {
          ForcedHit(eng, rule, rule.condition.value, d);
          OwnNameHit(rules, i, FullText(d));
        }
      }
    }
    ExactUnlessMissed(eng, rules, d);
  }

  // ---------------------------------------------------------------- what goes wrong otherwise

  ghost predicate Exact(eng: Engine, rules: seq<Rule>, d: Request) {
    multiset(Reported(eng, rules, d, Active(rules, d))) == Accepted(eng, rules, d)
  }

  /** Whatever occurs in lower-cased text is lower-case itself. */
  lemma HitIsLower(p: string, text: string)
    requires Occurs(p, Lower(text))
    ensures p == Lower(p)
  {
    OccursChars(p, Lower(text));
    forall j | 0 <= j < |p| ensures p[j] == LowerChar(p[j]) {
      assert p[j] in Lower(text);
      var i :| 0 <= i < |text| && Lower(text)[i] == p[j];
      assert LowerChar(text[i]) == p[j];
    }
  }

  lemma MissedAlone(eng: Engine, rule: Rule, d: Request)
    ensures Exact(eng, [rule], d) <==> !Missed(eng, [rule], d, rule)
  {
    hide Missed;
    ExactUnlessMissed(eng, [rule], d);
    assert [rule][0] == rule;
  }

  // ---------------------------------------------------------------- rules of one leaf

  /** The text a leaf on string `x` looks at. */
  function LeafOf(c: Condition, rule: Rule, x: string): Option<Surface> {
    match c
    case Match(y) => if y == x then Some(Full) else None
    case MatchIn(y, t) => if y == x then Some(ResolveTarget(t, rule)) else None
    case _ => None
  }

  function LeafSurface(rule: Rule, x: string): Option<Surface> {
    if rule.condition.Some? then LeafOf(rule.condition.value, rule, x) else None
  }

  predicate OneLeaf(rule: Rule, x: string) {
    rule.strings.Keys == {x} && LeafSurface(rule, x).Some?
  }

  /** Some prepared request makes the pattern match on this surface. */
  predicate CanHit(def: RuleString, s: Surface) {
    def.hasCompiled && !AlwaysEmpty(s) &&
    (!def.literal ||
     match s
     case Protocol => InHttp(def)
     case Timestamp => InClock(def.pattern)
     case _ => true)
  }

  predicate InHttp(def: RuleString) {
    Occurs(Keyword(def), "http")
  }

  /** The prefilters never drop a one-leaf rule: a keyword is usable inside the scanned text, a group is skipped only when the surface is empty. */
  predicate Kept(rule: Rule, x: string, s: Surface)
    requires x in rule.strings
  {
    (IsHook(rule.strings[x]) ==> Usable(rule.strings[x]) && PartOfFull(s)) &&
    (GroupOf(rule) in {BodyGroup, HeadersGroup} ==> EmptyWhenSkipped(GroupOf(rule), s))
  }

  lemma LeafAccepts(eng: Engine, rule: Rule, x: string, d: Request)
    requires OneLeaf(rule, x)
    ensures x in rule.strings && (Accepts(eng, rule, d) <==> TestPattern(eng, rule.strings[x], Text(d, LeafSurface(rule, x).value)))
  {
    hide TestPattern, FullText, ResolveTarget;
    assert x in rule.strings.Keys;
  }

  lemma LeafFiltered(rule: Rule, x: string, d: Request)
    requires rule.strings.Keys == {x}
    ensures x in rule.strings
    ensures Prefiltered([rule], d, rule) <==> IsHook(rule.strings[x]) && !Occurs(Keyword(rule.strings[x]), Lower(FullText(d)))
  {
    hide Occurs, Lower, FullText;
    assert x in rule.strings.Keys;
    assert forall y :: y in rule.strings <==> y in rule.strings.Keys;
    assert [rule][0] == rule;
  }

  lemma DigitsLower(t: string)
    requires AllDigits(t)
    ensures Lower(t) == t
  {
  }

  lemma LowerDigits(p: string)
    requires AllDigits(Lower(p))
    ensures AllDigits(p)
  {
    forall i | 0 <= i < |p| ensures '0' <= p[i] <= '9' {
      assert Lower(p)[i] == LowerChar(p[i]);
    }
  }

  lemma LowerHttp()
    ensures Lower("http") == "http"
  {
  }

  /** A match makes the surface one that can be hit, and non-empty. */
  lemma HitMeans(eng: Engine, def: RuleString, s: Surface, d: Request)
    requires Prepared(d) && TestPattern(eng, def, Text(d, s))
    ensures CanHit(def, s) && Text(d, s) != ""
  {
    hide Occurs, Lower, FullText, Prepared;
    PreparedShape(d);
    DigitsLower(d.timestamp);
    if def.literal && s == Timestamp && def.nocase {
      LowerDigits(def.pattern);
      DigitsLower(def.pattern);
    }
    LowerHttp();
  }

  lemma LeafKept(eng: Engine, rule: Rule, x: string, d: Request)
    requires OneLeaf(rule, x) && Prepared(d)
    requires x in rule.strings && (CanHit(rule.strings[x], LeafSurface(rule, x).value) ==> Kept(rule, x, LeafSurface(rule, x).value))
    ensures !Missed(eng, [rule], d, rule)
  {
    hide Occurs, Lower, FullText, LeafSurface, GroupOf, TestPattern, CanHit, Accepts, Prefiltered, Prepared;
    var s, def := LeafSurface(rule, x).value, rule.strings[x];
    LeafAccepts(eng, rule, x, d);
    LeafFiltered(rule, x, d);
    if TestPattern(eng, def, Text(d, s)) {
      HitMeans(eng, def, s, d);
      if IsHook(def) {
        UsableHit(eng, rule, x, Text(d, s));
        PartHit(Keyword(def), d, s);
      }
      SkippedIsEmpty(d, s);
    }
  }

  lemma SkippedIsEmpty(d: Request, s: Surface)
    requires Prepared(d)
    ensures AlwaysEmpty(s) ==> Text(d, s) == ""
    ensures d.body == "" && EmptyWhenSkipped(BodyGroup, s) ==> Text(d, s) == ""
    ensures d.headers == "" && EmptyWhenSkipped(HeadersGroup, s) ==> Text(d, s) == ""
  {
    hide Prepared;
    PreparedShape(d);
  }

  // ---------------------------------------------------------------- requests that are lost

  /** A text the pattern matches: the pattern itself, unless it is empty or a regex. */
  function Sample(def: RuleString): string {
    if def.literal && def.pattern != "" then def.pattern else "0"
  }

  /** A request without any text. */
  const BLANK := HttpRequest("", "", "", "", "", "", [], [], [])

  /** A request whose flattened texts, url and body hold this text, and no line end of their own. */
  function Filled(c: string): HttpRequest {
    BLANK.(url := c, body := c, query := [("x", [c])], headers := [("x", [c])], cookies := [("x", c)])
  }

  /** `r` with the text `p` on one surface, and on the headers if it comes from there. */
  function Put(r: HttpRequest, s: Surface, p: string): HttpRequest {
    match s
    case Url => r.(url := p)
    case RawUrl => r.(url := p)
    case Path => r.(path := p)
    case Body => r.(body := p)
    case RawBody => r.(body := p)
    case HttpMethod => r.(httpMethod := p)
    case UserAgent => r.(userAgent := p)
    case Ip => r.(ip := p)
    case QueryString => r.(query := [("x", [p])])
    case HeaderString => r.(headers := [("x", [p])])
    case CookieString => r.(cookies := [("x", p)])
    case ContentType => r.(headers := [("content-type", [p])])
    case Hostname => r.(headers := [("host", [p])])
    case Full => r.(url := p)
    case _ => r
  }

  /** A clock reading that holds `p` where the clock is the surface. */
  function Reading(s: Surface, p: string): nat {
    if s == Timestamp && InClock(p) then Clock(p) else 0
  }

  lemma OnePair(k: string, v: string)
    requires !Blocked(k)
    ensures Flattened(Spread([(k, [v])])) == Flattened(Unblocked([(k, v)])) == k + "=" + v
    ensures Flattened(Spread([])) == Flattened(Unblocked([])) == ""
  {
    var none: seq<(string, string)> := [];
    assert Spread([(k, [v])]) == Spread([]) + Each(k, [v]) == [(k, v)] by {
      assert [(k, [v])][..0] == [];
    }
    assert Unblocked([(k, v)]) == [(k, v)] by {
      assert [(k, v)][..0] == [];
    }
    assert none + [(k, v)] == [(k, v)];
    FlattenedNext(none, (k, v));
  }

  lemma HeaderAlone(p: string)
    ensures HeaderValue([("content-type", [p])], "content-type", "Content-Type") == p
    ensures HeaderValue([("host", [p])], "host", "Host") == p
  {
  }

  lemma PutPrepared(r: HttpRequest, s: Surface, p: string)
    requires r == BLANK || r == Filled("a")
    ensures Prepared(Prepare(Put(r, s, p), Reading(s, p)))
  {
    hide Prepare, InClock, Clock;
    var q := Put(r, s, p);
    if InClock(p) {
      ClockHolds(p);
    }
    assert DistinctKeys(q.query) && DistinctKeys(q.headers) && DistinctKeys(q.cookies);
  }

  /** What then stands on the surface: the text, or a pair that holds it, or a clock reading. */
  lemma PutText(r: HttpRequest, s: Surface, p: string)
    requires !AlwaysEmpty(s) && s !in {Protocol, Full}
    ensures Text(Prepare(Put(r, s, p), Reading(s, p)), s) ==
      match s
      case Timestamp => Decimal(Reading(s, p))
      case QueryString => "x=" + p
      case HeaderString => "x=" + p
      case CookieString => "x=" + p
      case _ => p
  {
    hide HeaderValue, Flattened, Spread, Unblocked, Decimal, Reading;
    HeaderAlone(p);
    OnePair("x", p);
    assert "x" + "=" == "x=";
  }

  lemma PutFull(r: HttpRequest, p: string, now: nat)
    ensures Occurs(p, FullText(Prepare(Put(r, Full, p), now)))
  {
    hide Prepare, FullText, Occurs;
    var d := Prepare(Put(r, Full, p), now);
    assert Text(d, Url) == p by {
      UrlKept(Put(r, Full, p), now);
    }
    var x, y := PartSplit(d, Url);
    OccursWhole(p);
    OccursInside(p, x, p, y);
  }

  lemma UrlKept(r: HttpRequest, now: nat)
    ensures Prepare(r, now).url == r.url
  {
  }

  /** The text put on a surface occurs there. */
  lemma PutOccurs(r: HttpRequest, s: Surface, p: string)
    requires !AlwaysEmpty(s) && s != Protocol && (s == Timestamp ==> InClock(p))
    ensures Occurs(p, Text(Prepare(Put(r, s, p), Reading(s, p)), s))
  {
    hide Prepare, FullText, Occurs, Put, InClock, Clock, Decimal, Text;
    if s == Full {
      PutFull(r, p, Reading(s, p));
      FullIsFull(Prepare(Put(r, s, p), Reading(s, p)));
    } else {
      PutText(r, s, p);
      OccursWhole(p);
      OccursBehind(p, "x=", p);
      if s == Timestamp {
        ClockHolds(p);
      }
    }
  }

  lemma FullIsFull(d: Request)
    ensures Text(d, Full) == FullText(d)
  {
  }

  function AnyMatch(): Engine {
    (_, _, _) => true
  }

  lemma TestSample(def: RuleString, text: string)
    requires def.hasCompiled && text != "" && Occurs(Sample(def), text)
    ensures TestPattern(AnyMatch(), def, text)
  {
    hide Occurs;
    if def.literal {
      if def.pattern == "" {
        OccursWhole(text);
        OccursWhole(Lower(text));
        assert Lower("") == "";
      } else if def.nocase {
        OccursLower(def.pattern, text);
      }
    }
  }

  /** Put on its surface, the sample is matched, on a prepared request. */
  lemma PutHits(def: RuleString, s: Surface, r: HttpRequest)
    requires CanHit(def, s) && (r == BLANK || r == Filled("a"))
    ensures var d := Prepare(Put(r, s, Sample(def)), Reading(s, Sample(def)));
      Prepared(d) && TestPattern(AnyMatch(), def, Text(d, s))
  {
    hide Occurs, Lower, Prepare, Prepared, FullText, Put, Reading, Decimal, InClock;
    var p := Sample(def);
    var d := Prepare(Put(r, s, p), Reading(s, p));
    if s == Protocol {
      LowerHttp();
      PutNothing(r, s, p);
      BlankPrepared(r, 0);
    } else {
      ZeroInClock();
      PutPrepared(r, s, p);
      PutOccurs(r, s, p);
      OccursFits(p, Text(d, s));
      TestSample(def, Text(d, s));
    }
  }

  lemma PutNothing(r: HttpRequest, s: Surface, p: string)
    requires s == Protocol
    ensures Put(r, s, p) == r && Reading(s, p) == 0
  {
  }

  lemma ZeroInClock()
    ensures InClock("0")
  {
  }

  lemma FullLong(d: Request)
    ensures |FullText(d)| >= 4
  {
  }

  lemma BlankPrepared(r: HttpRequest, now: nat)
    requires (r == BLANK || r == Filled("a")) && now < LIMIT
    ensures Prepared(Prepare(r, now))
  {
    hide Prepare;
    assert DistinctKeys(r.query) && DistinctKeys(r.headers) && DistinctKeys(r.cookies);
  }

  lemma FirstTwo(k: string, t: string) returns (i: nat)
    requires |k| >= 2 && Occurs(k, t)
    ensures i + 1 < |t| && t[i] == k[0] && t[i + 1] == k[1]
  {
    i :| 0 <= i <= |t| - |k| && OccursAt(k, t, i);
    assert t[i..i + |k|][0] == t[i] && t[i..i + |k|][1] == t[i + 1];
  }

  /** No two line ends stand side by side in that text. */
  lemma FilledAvoids(k: string, d: Request)
    requires |k| >= 2 && k[0] == k[1] == '\n'
    requires d.url == d.body == "a" && d.query == d.headers == d.cookies == "x=a"
    ensures Lower(FullText(d)) == FullText(d) && !Occurs(k, FullText(d))
  {
    var t := "a\nx=a\na\nx=a\nx=a";
    assert FullText(d) == t;
    assert Lower(t) == t;
    if Occurs(k, t) {
      hide Occurs;
      var i := FirstTwo(k, t);
    }
  }

  lemma BlankAvoids(k: string, d: Request, j: nat)
    requires d.url == d.query == d.body == d.headers == d.cookies == "" && j < |k| && k[j] != '\n'
    ensures !Occurs(k, Lower(FullText(d)))
  {
    assert FullText(d) == "\n\n\n\n" && Lower("\n\n\n\n") == "\n\n\n\n";
    Absent(k, "\n\n\n\n", j);
  }

  /** Outside the scanned text nothing of it changes. */
  lemma PutOutside(s: Surface, p: string, now: nat)
    requires !PartOfFull(s)
    ensures var d := Prepare(Put(BLANK, s, p), now); d.url == d.query == d.body == d.headers == d.cookies == ""
    ensures var d := Prepare(Put(Filled("a"), s, p), now);
      d.url == d.body == "a" && d.query == d.headers == d.cookies == "x=a"
  {
    hide Flattened, Spread, Unblocked;
    OnePair("x", "a");
  }

  /** A group that this surface does not fill stays skipped. */
  lemma PutSkips(g: Group, s: Surface, p: string, now: nat)
    requires !EmptyWhenSkipped(g, s)
    ensures var d := Prepare(Put(BLANK, s, p), now); (g == BodyGroup ==> d.body == "") && (g == HeadersGroup ==> d.headers == "")
  {
    hide Flattened, Spread, Unblocked;
    OnePair("x", "a");
  }

  /** A prepared request on which a one-leaf rule is accepted and lost. */
  lemma LeafLost(rule: Rule, x: string) returns (d: Request)
    requires OneLeaf(rule, x) && x in rule.strings
    requires CanHit(rule.strings[x], LeafSurface(rule, x).value) && !Kept(rule, x, LeafSurface(rule, x).value)
    ensures Prepared(d) && Missed(AnyMatch(), [rule], d, rule)
  {
    hide Occurs, Lower, FullText, LeafSurface, GroupOf, TestPattern, CanHit, Accepts, Prefiltered, Prepared, Prepare, Put, Reading;
    var s, def := LeafSurface(rule, x).value, rule.strings[x];
    var k, p := Keyword(def), Sample(def);
    if IsHook(def) && !PartOfFull(s) && forall j :: 0 <= j < |k| ==> k[j] == '\n' {
      d := Prepare(Put(Filled("a"), s, p), Reading(s, p));
      PutHits(def, s, Filled("a"));
      PutOutside(s, p, Reading(s, p));
      FilledAvoids(k, d);
    } else {
      d := Prepare(Put(BLANK, s, p), Reading(s, p));
      PutHits(def, s, BLANK);
      if IsHook(def) && !PartOfFull(s) {
        var j :| 0 <= j < |k| && k[j] != '\n';
        PutOutside(s, p, Reading(s, p));
        BlankAvoids(k, d, j);
      } else if IsHook(def) && !Usable(def) {
        if Occurs(k, Lower(FullText(d))) {
          HitIsLower(k, FullText(d));
        }
      } else {
        PutSkips(GroupOf(rule), s, p, Reading(s, p));
        assert !IsActive(rule, d);
      }
    }
    LeafAccepts(AnyMatch(), rule, x, d);
    LeafFiltered(rule, x, d);
  }

  /**
   For a rule whose condition is one leaf on its one string, whatever its targets: the matcher is
   exact on every prepared request, for every regex engine, if and only if no request can match the
   leaf, or the string is no keyword or a usable one on a surface inside the scanned text, and that
   surface is empty whenever the rule's group is skipped.
   */
  lemma OneLeafExact(rule: Rule, x: string)
    requires OneLeaf(rule, x)
    ensures x in rule.strings
    ensures var s := LeafSurface(rule, x).value;
      (forall eng: Engine, d :: Prepared(d) ==> Exact(eng, [rule], d)) <==> (CanHit(rule.strings[x], s) ==> Kept(rule, x, s))
  {
    hide LeafSurface, CanHit, Kept, Exact, Prepared, Missed;
    assert x in rule.strings.Keys;
    var s := LeafSurface(rule, x).value;
    if CanHit(rule.strings[x], s) ==> Kept(rule, x, s) {
      forall eng: Engine, d | Prepared(d) ensures Exact(eng, [rule], d) {
        LeafKept(eng, rule, x, d);
        MissedAlone(eng, rule, d);
      }
    } else {
      var d := LeafLost(rule, x);
      MissedAlone(AnyMatch(), rule, d);
      assert !Exact(AnyMatch(), [rule], d);
    }
  }

  /** A rule on cookies alone is filed with the header rules, so it is lost on some request whatever its pattern. */
  lemma CookieRuleMissed(rule: Rule, x: string, t: string)
    requires rule.targets == map[t := "request.cookies"] && rule.condition == Some(MatchIn(x, t))
    requires rule.strings.Keys == {x} && rule.strings[x].hasCompiled
    ensures GroupOf(rule) == HeadersGroup
    ensures exists eng: Engine, d :: Prepared(d) && !Exact(eng, [rule], d)
  {
    hide Exact;
    CookieGroup(rule, t);
    OneLeafExact(rule, x);
  }

  lemma CookieGroup(rule: Rule, t: string)
    requires rule.targets == map[t := "request.cookies"]
    ensures GroupOf(rule) == HeadersGroup
  {
    var c := "request.cookies";
    Absent("body", c, 0);
    Absent("url", c, 2);
    Absent("path", c, 0);
    Absent("query", c, 4);
    assert OccursAt("cookie", c, 8);
    assert t in rule.targets && rule.targets[t] == c;
  }

  // ---------------------------------------------------------------- negated leaves

  function NegatedSurface(rule: Rule, x: string): Option<Surface> {
    match rule.condition
    case Some(Not(c)) => LeafOf(c, rule, x)
    case _ => None
  }

  predicate NegatedLeaf(rule: Rule, x: string) {
    rule.strings.Keys == {x} && NegatedSurface(rule, x).Some?
  }

  lemma NegatedAccepts(eng: Engine, rule: Rule, x: string, d: Request)
    requires NegatedLeaf(rule, x)
    ensures x in rule.strings && (Accepts(eng, rule, d) <==> !TestPattern(eng, rule.strings[x], Text(d, NegatedSurface(rule, x).value)))
  {
    hide TestPattern, FullText, ResolveTarget;
    assert x in rule.strings.Keys;
    var c := rule.condition.value.expr;
    assert Evaluate(eng, c, rule, d) <==> TestPattern(eng, rule.strings[x], Text(d, NegatedSurface(rule, x).value));
  }

  /**
   With one negated leaf the matcher is exact on a request if and only if the leaf matches, so that
   the rule is rejected, or the rule's group is looked at and its keyword, if it has one, is there.
   */
  lemma NegationExact(eng: Engine, rule: Rule, x: string, d: Request)
    requires NegatedLeaf(rule, x)
    ensures x in rule.strings
    ensures var s, def := NegatedSurface(rule, x).value, rule.strings[x];
      Exact(eng, [rule], d) <==>
        TestPattern(eng, def, Text(d, s)) || (IsActive(rule, d) && (IsHook(def) ==> Occurs(Keyword(def), Lower(FullText(d)))))
  {
    hide TestPattern, FullText, Occurs, Lower, NegatedSurface, Accepts, Prefiltered, Exact, GroupOf;
    MissedAlone(eng, rule, d);
    NegatedAccepts(eng, rule, x, d);
    LeafFiltered(rule, x, d);
  }

  /** The pattern matches on every request without a body, and on every one without headers. */
  predicate HitsAnyway(def: RuleString, s: Surface) {
    def.hasCompiled && def.literal &&
    match s
    case Protocol => InHttp(def)
    case Timestamp => def.pattern == ""
    case Full => |def.pattern| <= 2 && forall j :: 0 <= j < |def.pattern| ==> def.pattern[j] == '\n'
    case _ => false
  }

  lemma LineEndsJoin(d: Request) returns (x: string, y: string)
    requires d.body == "" || d.headers == ""
    ensures FullText(d) == x + ("\n\n" + y)
  {
    if d.body == "" {
      x, y := d.url + ("\n" + d.query), d.headers + ("\n" + d.cookies);
    } else {
      x, y := d.url + ("\n" + (d.query + ("\n" + d.body))), d.cookies;
    }
  }

  lemma LineEnds(p: string)
    requires |p| <= 2 && forall j :: 0 <= j < |p| ==> p[j] == '\n'
    ensures Occurs(p, "\n\n") && Lower(p) == p
  {
    assert "\n\n"[0..|p|] == p;
    assert OccursAt(p, "\n\n", 0);
  }

  lemma AnywayHits(eng: Engine, def: RuleString, s: Surface, d: Request)
    requires HitsAnyway(def, s) && Prepared(d) && (s == Full ==> d.body == "" || d.headers == "")
    ensures TestPattern(eng, def, Text(d, s))
  {
    hide Occurs, Lower, FullText, Prepared;
    PreparedShape(d);
    LowerHttp();
    FullLong(d);
    if s == Full {
      LineEnds(def.pattern);
      var x, y := LineEndsJoin(d);
      OccursInside(def.pattern, x, "\n\n", y);
      OccursLower(def.pattern, FullText(d));
    } else if s == Timestamp {
      OccursWhole(d.timestamp);
      OccursWhole(Lower(d.timestamp));
      assert Lower("") == "";
    }
  }

  function NoMatch(): Engine {
    (_, _, _) => false
  }

  /** The texts of a request without any text, at the first or second clock reading. */
  lemma BlankTexts(now: nat)
    requires now < 2
    ensures var d := Prepare(BLANK, now);
      Prepared(d) && d.url == d.query == d.body == d.headers == d.cookies == d.contentType == d.hostname == "" &&
      d.path == d.httpMethod == d.userAgent == d.ip == "" &&
      FullText(d) == Lower(FullText(d)) == "\n\n\n\n" && d.timestamp == (if now == 0 then "0" else "1")
  {
    BlankPrepared(BLANK, now);
    assert Lower("\n\n\n\n") == "\n\n\n\n";
  }

  lemma LowerLineEnd(p: string, j: nat)
    requires j < |p| && p[j] != '\n'
    ensures Lower(p)[j] != '\n'
  {
  }

  /** Only itself and the empty text occur in a text of one character. */
  lemma OneCharacter(k: string, t: string)
    requires Occurs(k, t) && |t| == 1
    ensures k == "" || k == t
  {
    OccursFits(k, t);
    if |k| == 1 {
      WholeOnly(k, t);
    }
  }

  predicate OnlyLineEnds(p: string) {
    forall j :: 0 <= j < |p| ==> p[j] == '\n'
  }

  /** A leaf that is not hit anyway is not hit on a request without text, unless it is line ends. */
  lemma BlankMisses(def: RuleString, s: Surface, now: nat)
    requires !HitsAnyway(def, s) && !(OnlyLineEnds(def.pattern) && |def.pattern| >= 3)
    requires now == if def.pattern == "0" then 1 else 0
    ensures !TestPattern(NoMatch(), def, Text(Prepare(BLANK, now), s))
  {
    hide Occurs, Lower, FullText, Prepare, Prepared;
    var d := Prepare(BLANK, now);
    BlankTexts(now);
    LowerHttp();
    if TestPattern(NoMatch(), def, Text(d, s)) {
      if s == Full {
        var j :| 0 <= j < |def.pattern| && def.pattern[j] != '\n';
        LowerLineEnd(def.pattern, j);
        BlankAvoids(Keyword(def), d, j);
      } else if s == Timestamp {
        DigitsLower(d.timestamp);
        OneCharacter(Keyword(def), d.timestamp);
        if def.nocase {
          LowerDigits(def.pattern);
          DigitsLower(def.pattern);
        }
      }
    }
  }

  /** Line ends alone are not hit where they never stand side by side. */
  lemma FilledMisses(def: RuleString, s: Surface)
    requires def.literal && OnlyLineEnds(def.pattern) && |def.pattern| >= 3
    ensures var d := Prepare(Filled("a"), 0);
      Prepared(d) && !Occurs(Keyword(def), Lower(FullText(d))) && !TestPattern(NoMatch(), def, Text(d, s))
  {
    hide Occurs, FullText, Prepared, Spread, Flattened, Unblocked;
    var d := Prepare(Filled("a"), 0);
    BlankPrepared(Filled("a"), 0);
    PutOutside(Protocol, "", 0);
    OnePair("x", "a");
    var k := Keyword(def);
    FilledAvoids(k, d);
    if s != Full {
      assert '\n' !in Text(d, s) by {
        hide *;
        FilledLines(s);
      }
      Absent(k, Text(d, s), 0);
      NoNewLines(Text(d, s));
      Absent(k, Lower(Text(d, s)), 0);
    }
  }

  lemma FilledLines(s: Surface)
    requires s != Full
    ensures '\n' !in Text(Prepare(Filled("a"), 0), s)
  {
    hide Spread, Flattened, Unblocked, Find;
    OnePair("x", "a");
    assert Find([("x", ["a"])], "content-type") == Find([("x", ["a"])], "Content-Type") == None by {
      FindOther("x", ["a"], "content-type");
      FindOther("x", ["a"], "Content-Type");
    }
    FindOther("x", ["a"], "host");
    FindOther("x", ["a"], "Host");
  }

  lemma FindOther(k: string, v: seq<string>, key: string)
    requires k != key
    ensures Find([(k, v)], key) == None
  {
    assert [(k, v)][1..] == [];
  }

  lemma NoNewLines(t: string)
    requires '\n' !in t
    ensures '\n' !in Lower(t)
  {
    forall i | 0 <= i < |t| ensures Lower(t)[i] != '\n' {
      assert t[i] in t;
    }
  }

  /** A prepared request on which the accepted rule is lost. */
  lemma NegationLost(rule: Rule, x: string) returns (d: Request)
    requires NegatedLeaf(rule, x) && x in rule.strings && !HitsAnyway(rule.strings[x], NegatedSurface(rule, x).value)
    requires IsHook(rule.strings[x]) || GroupOf(rule) in {BodyGroup, HeadersGroup}
    ensures Prepared(d) && !Exact(NoMatch(), [rule], d)
  {
    hide TestPattern, FullText, Occurs, Lower, NegatedSurface, Exact, GroupOf, Prepare, Prepared, HitsAnyway;
    var s, def := NegatedSurface(rule, x).value, rule.strings[x];
    if IsHook(def) && OnlyLineEnds(def.pattern) {
      d := Prepare(Filled("a"), 0);
      FilledMisses(def, s);
    } else {
      var now := if def.pattern == "0" then 1 else 0;
      d := Prepare(BLANK, now);
      BlankTexts(now);
      if !(OnlyLineEnds(def.pattern) && |def.pattern| >= 3) {
        BlankMisses(def, s, now);
      } else {
        NoLiteral(def, Text(d, s));
      }
      if IsHook(def) {
        var j :| 0 <= j < |def.pattern| && def.pattern[j] != '\n';
        LowerLineEnd(def.pattern, j);
        BlankAvoids(Keyword(def), d, j);
      }
    }
    NegationExact(NoMatch(), rule, x, d);
  }

  lemma NoLiteral(def: RuleString, text: string)
    requires !def.literal
    ensures !TestPattern(NoMatch(), def, text)
  {
  }

  /**
   For a rule whose condition is one negated leaf on its one string, whatever its targets: the matcher
   is exact on every prepared request, for every regex engine, if and only if the string is no keyword
   and the rule's group is never skipped, or the pattern matches anyway on what it looks at.
   */
  lemma NegatedLeafExact(rule: Rule, x: string)
    requires NegatedLeaf(rule, x)
    ensures x in rule.strings
    ensures var s, def := NegatedSurface(rule, x).value, rule.strings[x];
      (forall eng: Engine, d :: Prepared(d) ==> Exact(eng, [rule], d)) <==>
        (IsHook(def) || GroupOf(rule) in {BodyGroup, HeadersGroup} ==> HitsAnyway(def, s))
  {
    hide TestPattern, FullText, Occurs, Lower, NegatedSurface, Exact, GroupOf, Prepared;
    assert x in rule.strings.Keys;
    var s, def := NegatedSurface(rule, x).value, rule.strings[x];
    if IsHook(def) || GroupOf(rule) in {BodyGroup, HeadersGroup} ==> HitsAnyway(def, s) {
      forall eng: Engine, d | Prepared(d) ensures Exact(eng, [rule], d) {
        NegationExact(eng, rule, x, d);
        if IsHook(def) || !IsActive(rule, d) {
          AnywayHits(eng, def, s, d);
        }
      }
    } else {
      var d := NegationLost(rule, x);
      assert !Exact(NoMatch(), [rule], d);
    }
  }
}
