/** What the matcher's conditions and names mean, independently of how they are evaluated. */
module MatcherMeaning {
  import opened RequestTexts
  import opened RuleSyntax
  import opened Numerals
  import opened Strings
  import opened RuleMatcher
  import opened MatcherExactness
  import opened MatcherSyntax
  import opened Wrappers

  // ---------------------------------------------------------------- what a literal tests

  /** Two characters are one letter, whatever their case, or equal. */
  predicate SameLetter(a: char, b: char) {
    var (x, y) := (a as int, b as int);
    x == y || (0x41 <= x <= 0x5A && y == x + 32) || (0x41 <= y <= 0x5A && x == y + 32)
  }

  lemma LowerExactly(a: char, b: char)
    ensures LowerChar(a) == LowerChar(b) <==> SameLetter(a, b)
  {
  }

  predicate SameLetters(a: string, b: string) {
    |a| == |b| && forall i :: 0 <= i < |a| ==> SameLetter(a[i], b[i])
  }

  lemma LowerSame(a: string, b: string)
    ensures Lower(a) == Lower(b) <==> SameLetters(a, b)
  {
    if Lower(a) == Lower(b) {
      forall i | 0 <= i < |a| ensures SameLetter(a[i], b[i]) {
        assert Lower(a)[i] == Lower(b)[i];
        LowerExactly(a[i], b[i]);
      }
    }
    if SameLetters(a, b) {
      forall i | 0 <= i < |a| ensures Lower(a)[i] == Lower(b)[i] {
        LowerExactly(a[i], b[i]);
      }
    }
  }

  lemma LowerSlice(t: string, i: nat, n: nat)
    requires i + n <= |t|
    ensures Lower(t)[i..i + n] == Lower(t[i..i + n])
  {
  }

  /** The part of the text at `i` is the pattern, up to case if `nocase`. */
  predicate PartIs(pattern: string, nocase: bool, text: string, i: int)
    requires 0 <= i <= |text| - |pattern|
  {
    var part := text[i..i + |pattern|];
    if nocase then SameLetters(part, pattern) else part == pattern
  }

  /** A literal matches a text if and only if some part of the text is the literal, up to case if it says so. */
  lemma LiteralMeans(eng: Engine, def: RuleString, text: string)
    requires def.literal && def.hasCompiled
    ensures TestPattern(eng, def, text) <==>
            text != "" && exists i :: 0 <= i <= |text| - |def.pattern| && PartIs(def.pattern, def.nocase, text, i)
  {
    hide Lower, SameLetters;
    var n := |def.pattern|;
    forall i | 0 <= i <= |text| - n
      ensures OccursAt(Lower(def.pattern), Lower(text), i) <==> PartIs(def.pattern, true, text, i)
      ensures OccursAt(def.pattern, text, i) <==> PartIs(def.pattern, false, text, i)
    {
      LowerSlice(text, i, n);
      LowerSame(text[i..i + n], def.pattern);
    }
  }

  // ---------------------------------------------------------------- conditions as clauses

  /** A declared string that has to match, or not to match, on a surface. */
  datatype Literal = Literal(positive: bool, name: string, surface: Surface)

  type Clause = set<Literal>

  /** One leaf; an undeclared string never matches. */
  function LeafClauses(rule: Rule, sign: bool, x: string, s: Surface): set<Clause> {
    if x in rule.strings then {{Literal(sign, x, s)}} else if sign then {} else {{}}
  }

  function Both(a: set<Clause>, b: set<Clause>): set<Clause> {
    set x, y | x in a && y in b :: x + y
  }

  /** The declared ones among these names, as literals on the whole request. */
  function Literals(rule: Rule, sign: bool, names: set<string>): Clause {
    set x | x in names && x in rule.strings :: Literal(sign, x, Full)
  }

  function Singles(c: Clause): set<Clause> {
    set l | l in c :: {l}
  }

  function Names(vars: seq<string>): (r: set<string>)
    ensures forall x :: x in r <==> x in vars
  {
    set x | x in vars
  }

  /**
   Clauses one of which must hold entirely, for the condition to be true, or false if `sign` says so:
   its disjunctive normal form, from its syntax and the strings and targets of the rule.
   */
  function Clauses(rule: Rule, c: Condition, sign: bool): set<Clause> {
    match c
    case And(l, r) =>
      if sign then Both(Clauses(rule, l, true), Clauses(rule, r, true))
      else Clauses(rule, l, false) + Clauses(rule, r, false)
    case Or(l, r) =>
      if sign then Clauses(rule, l, true) + Clauses(rule, r, true)
      else Both(Clauses(rule, l, false), Clauses(rule, r, false))
    case Not(e) => Clauses(rule, e, !sign)
    case Match(x) => LeafClauses(rule, sign, x, Full)
    case MatchIn(x, t) => LeafClauses(rule, sign, x, ResolveTarget(t, rule))
    case AnyOfThem =>
      if sign then Singles(Literals(rule, true, rule.strings.Keys)) else {Literals(rule, false, rule.strings.Keys)}
    case AllOfThem =>
      if sign then {Literals(rule, true, rule.strings.Keys)} else Singles(Literals(rule, false, rule.strings.Keys))
    case AnyOf(vars) =>
      if sign then Singles(Literals(rule, true, Names(vars))) else {Literals(rule, false, Names(vars))}
    case AllOf(vars) =>
      if Names(vars) <= rule.strings.Keys then
        if sign then {Literals(rule, true, Names(vars))} else Singles(Literals(rule, false, Names(vars)))
      else if sign then {} else {{}}
    case Boolean(b) => if b == sign then {{}} else {}
  }

  predicate LiteralHolds(eng: Engine, rule: Rule, d: Request, l: Literal) {
    l.name in rule.strings && TestPattern(eng, rule.strings[l.name], Text(d, l.surface)) == l.positive
  }

  predicate Holds(eng: Engine, rule: Rule, d: Request, c: Clause) {
    forall l :: l in c ==> LiteralHolds(eng, rule, d, l)
  }

  ghost predicate SomeHolds(eng: Engine, rule: Rule, d: Request, cs: set<Clause>) {
    exists c :: c in cs && Holds(eng, rule, d, c)
  }

  lemma BothHold(eng: Engine, rule: Rule, d: Request, a: set<Clause>, b: set<Clause>)
    ensures SomeHolds(eng, rule, d, Both(a, b)) <==> SomeHolds(eng, rule, d, a) && SomeHolds(eng, rule, d, b)
  {
    hide LiteralHolds;
    if SomeHolds(eng, rule, d, Both(a, b)) {
      var c :| c in Both(a, b) && Holds(eng, rule, d, c);
      var x, y :| x in a && y in b && c == x + y;
      assert Holds(eng, rule, d, x) && Holds(eng, rule, d, y);
    }
    if SomeHolds(eng, rule, d, a) && SomeHolds(eng, rule, d, b) {
      var x :| x in a && Holds(eng, rule, d, x);
      var y :| y in b && Holds(eng, rule, d, y);
      assert x + y in Both(a, b) && Holds(eng, rule, d, x + y);
    }
  }

  lemma EitherHolds(eng: Engine, rule: Rule, d: Request, a: set<Clause>, b: set<Clause>)
    ensures SomeHolds(eng, rule, d, a + b) <==> SomeHolds(eng, rule, d, a) || SomeHolds(eng, rule, d, b)
  {
    hide Holds;
  }

  lemma OneHolds(eng: Engine, rule: Rule, d: Request, c: Clause)
    ensures SomeHolds(eng, rule, d, {c}) <==> Holds(eng, rule, d, c)
    ensures !SomeHolds(eng, rule, d, {}) && Holds(eng, rule, d, {})
  {
    hide LiteralHolds;
    if Holds(eng, rule, d, c) {
      assert c in {c};
    }
  }

  lemma SinglesHold(eng: Engine, rule: Rule, d: Request, c: Clause)
    ensures SomeHolds(eng, rule, d, Singles(c)) <==> exists l :: l in c && LiteralHolds(eng, rule, d, l)
  {
    hide LiteralHolds;
    if l :| l in c && LiteralHolds(eng, rule, d, l) {
      assert {l} in Singles(c) && Holds(eng, rule, d, {l});
    }
    if SomeHolds(eng, rule, d, Singles(c)) {
      var x :| x in Singles(c) && Holds(eng, rule, d, x);
      var l :| l in c && x == {l};
      assert l in x;
    }
  }

  lemma LeafMeans(eng: Engine, rule: Rule, d: Request, sign: bool, x: string, s: Surface)
    ensures SomeHolds(eng, rule, d, LeafClauses(rule, sign, x, s)) <==> Hits(eng, rule, x, Text(d, s)) == sign
  {
    hide SomeHolds, Holds, TestPattern, FullText;
    var l := Literal(sign, x, s);
    OneHolds(eng, rule, d, {l});
    OneHolds(eng, rule, d, {});
    OneLiteral(eng, rule, d, l);
  }

  lemma OneLiteral(eng: Engine, rule: Rule, d: Request, l: Literal)
    ensures Holds(eng, rule, d, {l}) <==> LiteralHolds(eng, rule, d, l)
  {
    hide LiteralHolds;
    assert l in {l};
  }

  /** Literals on the whole request: all hold, or some does. */
  lemma LiteralsHold(eng: Engine, rule: Rule, d: Request, sign: bool, names: set<string>)
    ensures Holds(eng, rule, d, Literals(rule, sign, names)) <==>
            forall x :: x in names && x in rule.strings ==> Hits(eng, rule, x, FullText(d)) == sign
    ensures SomeHolds(eng, rule, d, Singles(Literals(rule, sign, names))) <==>
            exists x :: x in names && x in rule.strings && Hits(eng, rule, x, FullText(d)) == sign
  {
    hide TestPattern, FullText, SomeHolds, Singles;
    var c := Literals(rule, sign, names);
    SinglesHold(eng, rule, d, c);
    forall x | x in names && x in rule.strings
      ensures Literal(sign, x, Full) in c
      ensures LiteralHolds(eng, rule, d, Literal(sign, x, Full)) <==> Hits(eng, rule, x, FullText(d)) == sign
    {
      assert Text(d, Full) == FullText(d);
    }
  }

  /** A condition is true, or false, if and only if one of its clauses holds entirely. */
  lemma {:induction false} ClausesMean(eng: Engine, rule: Rule, c: Condition, d: Request, sign: bool)
    ensures Evaluate(eng, c, rule, d) == sign <==> SomeHolds(eng, rule, d, Clauses(rule, c, sign))
    decreases c
  {
    hide SomeHolds, Holds, Hits, TestPattern, FullText, Text, ResolveTarget, Singles, Both, LeafClauses, Literals;
    OneHolds(eng, rule, d, {});
    match c
    case And(l, r) =>
      ClausesMean(eng, rule, l, d, sign);
      ClausesMean(eng, rule, r, d, sign);
      BothHold(eng, rule, d, Clauses(rule, l, sign), Clauses(rule, r, sign));
      EitherHolds(eng, rule, d, Clauses(rule, l, sign), Clauses(rule, r, sign));
    case Or(l, r) =>
      ClausesMean(eng, rule, l, d, sign);
      ClausesMean(eng, rule, r, d, sign);
      BothHold(eng, rule, d, Clauses(rule, l, sign), Clauses(rule, r, sign));
      EitherHolds(eng, rule, d, Clauses(rule, l, sign), Clauses(rule, r, sign));
    case Not(e) =>
      ClausesMean(eng, rule, e, d, !sign);
    case Match(x) =>
      LeafMeans(eng, rule, d, sign, x, Full);
      WholeText(d);
    case MatchIn(x, t) =>
      LeafMeans(eng, rule, d, sign, x, ResolveTarget(t, rule));
    case Boolean(b) =>
    case _ =>
      SetMeans(eng, rule, c, d, sign);
  }

  lemma WholeText(d: Request)
    ensures Text(d, Full) == FullText(d)
  {
  }

  lemma SetMeans(eng: Engine, rule: Rule, c: Condition, d: Request, sign: bool)
    requires c.AnyOfThem? || c.AllOfThem? || c.AnyOf? || c.AllOf?
    ensures Evaluate(eng, c, rule, d) == sign <==> SomeHolds(eng, rule, d, Clauses(rule, c, sign))
  {
    hide SomeHolds, Holds, TestPattern, FullText, Singles, Literals;
    var names := if c.AnyOf? || c.AllOf? then Names(c.vars) else rule.strings.Keys;
    assert forall x :: x in rule.strings <==> x in rule.strings.Keys;
    LiteralsHold(eng, rule, d, sign, names);
    OneHolds(eng, rule, d, Literals(rule, sign, names));
    OneHolds(eng, rule, d, {});
    if c.AnyOf? || c.AllOf? {
      assert forall i :: 0 <= i < |c.vars| ==> c.vars[i] in names;
      if c.AllOf? && !(names <= rule.strings.Keys) {
        var x :| x in names && x !in rule.strings;
        assert !Hits(eng, rule, x, FullText(d));
      }
    }
  }

  /** What a rule says: some clause holds; without a condition it accepts everything. */
  ghost predicate Says(eng: Engine, rule: Rule, d: Request) {
    rule.condition.Some? ==> SomeHolds(eng, rule, d, Clauses(rule, rule.condition.value, true))
  }

  lemma AcceptsIsSays(eng: Engine, rule: Rule, d: Request)
    ensures Accepts(eng, rule, d) <==> Says(eng, rule, d)
  {
    hide SomeHolds, Clauses, Evaluate;
    if rule.condition.Some? {
      ClausesMean(eng, rule, rule.condition.value, d, true);
    }
  }

  // ---------------------------------------------------------------- what is reported

  /** Every rule that says yes, as often as it is listed, and no other. */
  ghost predicate AllThatSay(eng: Engine, rules: seq<Rule>, d: Request, reported: seq<Rule>) {
    forall r: Rule :: multiset(reported)[r] == if Says(eng, r, d) then multiset(rules)[r] else 0
  }

  lemma {:induction false} AcceptedCounts(eng: Engine, rules: seq<Rule>, d: Request, r: Rule)
    ensures Accepted(eng, rules, d)[r] == if Says(eng, r, d) then multiset(rules)[r] else 0
    decreases |rules|
  {
    hide Accepts, Says;
    if rules != [] {
      var init, last := rules[..|rules| - 1], rules[|rules| - 1];
      AcceptedCounts(eng, init, d, r);
      AcceptsIsSays(eng, last, d);
      assert rules == init + [last];
    }
  }

  /**
   Whatever `MatchCompiledRules` reports for safe rules describes, in some order, exactly the rules
   one of whose clauses holds on the request.
   */
  lemma SafeMatches(eng: Engine, rules: seq<Rule>, d: Request, matches: seq<WafMatch>) returns (reported: seq<Rule>)
    requires Prepared(d) && forall i :: 0 <= i < |rules| ==> Safe(rules, rules[i])
    requires Reports(eng, matches, Reported(eng, rules, d, Active(rules, d)), d)
    ensures Reports(eng, matches, reported, d) && AllThatSay(eng, rules, d, reported)
  {
    hide Reports, Reported, Active, Safe, Prepared, Says, Accepted;
    reported := Reported(eng, rules, d, Active(rules, d));
    SafeRulesExact(eng, rules, d);
    forall r: Rule ensures multiset(reported)[r] == if Says(eng, r, d) then multiset(rules)[r] else 0 {
      AcceptedCounts(eng, rules, d, r);
    }
  }

  /** For any rules at all, what is reported says yes. */
  lemma ReportedSays(eng: Engine, rules: seq<Rule>, d: Request, r: Rule)
    requires r in Reported(eng, rules, d, Active(rules, d))
    ensures Says(eng, r, d)
  {
    hide Reported, Active, Says, Accepts;
    ReportedAccepts(eng, rules, d, Active(rules, d));
    AcceptsIsSays(eng, r, d);
  }

  // ---------------------------------------------------------------- what the names reach

  /** The value of the first header of this name. */
  predicate HasHeader(r: HttpRequest, name: string, value: string) {
    exists i :: 0 <= i < |r.headers| && r.headers[i].0 == name && r.headers[i].1 != [] && r.headers[i].1[0] == value
  }

  predicate NoHeader(r: HttpRequest, name: string) {
    forall i :: 0 <= i < |r.headers| ==> r.headers[i].0 != name
  }

  lemma {:induction false} FindDistinct(m: Pairs, i: nat)
    requires DistinctKeys(m) && i < |m|
    ensures Find(m, m[i].0) == Some(m[i].1)
    decreases i
  {
    if i > 0 {
      assert m[1..][i - 1] == m[i];
      FindDistinct(m[1..], i - 1);
    }
  }

  lemma {:induction false} FindNone(m: Pairs, key: string)
    requires forall i :: 0 <= i < |m| ==> m[i].0 != key
    ensures Find(m, key) == None
    decreases |m|
  {
    if m != [] {
      assert forall i :: 0 <= i < |m[1..]| ==> m[1..][i] == m[i + 1];
      FindNone(m[1..], key);
    }
  }

  lemma HeaderReached(r: HttpRequest, small: string, other: string, value: string)
    requires DistinctKeys(r.headers)
    ensures HasHeader(r, small, value) ==> HeaderValue(r.headers, small, other) == value
    ensures NoHeader(r, small) && HasHeader(r, other, value) ==> HeaderValue(r.headers, small, other) == value
    ensures NoHeader(r, small) && NoHeader(r, other) ==> HeaderValue(r.headers, small, other) == ""
  {
    if HasHeader(r, small, value) {
      var i :| 0 <= i < |r.headers| && r.headers[i].0 == small && r.headers[i].1 != [] && r.headers[i].1[0] == value;
      FindDistinct(r.headers, i);
    }
    if NoHeader(r, small) {
      FindNone(r.headers, small);
      if NoHeader(r, other) {
        FindNone(r.headers, other);
      }
      if HasHeader(r, other, value) {
        var i :| 0 <= i < |r.headers| && r.headers[i].0 == other && r.headers[i].1 != [] && r.headers[i].1[0] == value;
        FindDistinct(r.headers, i);
      }
    }
  }

  /** The part of a request a target name stands for; for some names there is never any text. */
  function FieldOf(name: string, r: HttpRequest, now: nat): Option<string> {
    if name == "request.url" || name == "request.raw_url" then Some(r.url)
    else if name == "request.path" then Some(r.path)
    else if name == "request.body" || name == "request.raw_body" then Some(r.body)
    else if name == "request.method" then Some(r.httpMethod)
    else if name == "request.useragent" || name == "request.user_agent" then Some(r.userAgent)
    else if name == "request.ip" then Some(r.ip)
    else if name == "request.query" then Some(Flattened(Spread(r.query)))
    else if name == "request.headers" then Some(Flattened(Spread(r.headers)))
    else if name == "request.cookies" then Some(Flattened(Unblocked(r.cookies)))
    else if name == "request.timestamp" || name == "request.time" then Some(Decimal(now))
    else if name == "request.content_type" then Some(HeaderValue(r.headers, "content-type", "Content-Type"))
    else if name == "request.hostname" then Some(HeaderValue(r.headers, "host", "Host"))
    else if name == "request.protocol" then Some("http")
    else if name in ["request.session", "request.sessionid", "request.geoip", "request.geo",
                     "request.fingerprint", "request.fp", "request.rate"] then Some("")
    else None
  }

  /** A leaf on such a name tests just that part of the request. */
  lemma NameReached(eng: Engine, rule: Rule, x: string, t: string, r: HttpRequest, now: nat)
    requires t in rule.targets && FieldOf(rule.targets[t], r, now).Some? && x in rule.strings
    ensures Evaluate(eng, MatchIn(x, t), rule, Prepare(r, now)) <==>
            TestPattern(eng, rule.strings[x], FieldOf(rule.targets[t], r, now).value)
  {
    hide TestPattern, Flattened, Spread, Unblocked, HeaderValue, Decimal, FullText;
    NameSurface(rule.targets[t], r, now);
  }

  lemma NameSurface(name: string, r: HttpRequest, now: nat)
    requires FieldOf(name, r, now).Some?
    ensures Text(Prepare(r, now), Named(Mapped(name))) == FieldOf(name, r, now).value
  {
    hide Flattened, Spread, Unblocked, HeaderValue, Decimal, FullText, Mapped, Named;
    UrlSurfaces();
    SenderSurfaces();
    FlatSurfaces();
    ClockSurfaces();
    OtherSurfaces();
    EmptySurfaces();
    AliasSurfaces();
  }

  function SurfaceOf(name: string): Surface {
    Named(Mapped(name))
  }

  lemma UrlSurfaces()
    ensures SurfaceOf("request.url") == Url && SurfaceOf("request.raw_url") == RawUrl && SurfaceOf("request.path") == Path
    ensures SurfaceOf("request.body") == Body && SurfaceOf("request.raw_body") == RawBody
  {
  }

  lemma SenderSurfaces()
    ensures SurfaceOf("request.method") == HttpMethod && SurfaceOf("request.ip") == Ip
    ensures SurfaceOf("request.useragent") == UserAgent && SurfaceOf("request.user_agent") == UserAgent
  {
  }

  lemma FlatSurfaces()
    ensures SurfaceOf("request.query") == QueryString && SurfaceOf("request.headers") == HeaderString
    ensures SurfaceOf("request.cookies") == CookieString
  {
  }

  lemma ClockSurfaces()
    ensures SurfaceOf("request.timestamp") == Timestamp && SurfaceOf("request.time") == Timestamp
  {
  }

  lemma OtherSurfaces()
    ensures SurfaceOf("request.content_type") == ContentType && SurfaceOf("request.hostname") == Hostname
    ensures SurfaceOf("request.protocol") == Protocol
  {
  }

  lemma EmptySurfaces()
    ensures SurfaceOf("request.session") == SessionId && SurfaceOf("request.geoip") == GeoIp
    ensures SurfaceOf("request.fingerprint") == Fingerprint && SurfaceOf("request.rate") == Rate
  {
  }

  lemma AliasSurfaces()
    ensures SurfaceOf("request.sessionid") == SessionId && SurfaceOf("request.geo") == GeoIp
    ensures SurfaceOf("request.fp") == Fingerprint
  {
  }

  /** Parts with a line end between them. */
  function Lines(parts: seq<string>): string {
    if parts == [] then "" else if |parts| == 1 then parts[0] else parts[0] + "\n" + Lines(parts[1..])
  }

  /** The scanned text is these five parts, one below the other. */
  lemma FullIsLines(r: HttpRequest, now: nat)
    ensures FullText(Prepare(r, now)) ==
            Lines([r.url, Flattened(Spread(r.query)), r.body, Flattened(Spread(r.headers)), Flattened(Unblocked(r.cookies))])
  {
    hide Flattened, Spread, Unblocked, HeaderValue, Decimal;
    var q, h, c := Flattened(Spread(r.query)), Flattened(Spread(r.headers)), Flattened(Unblocked(r.cookies));
    assert [r.url, q, r.body, h, c][1..] == [q, r.body, h, c];
    assert [q, r.body, h, c][1..] == [r.body, h, c];
    assert [r.body, h, c][1..] == [h, c];
    assert [h, c][1..] == [c];
    assert Lines([h, c]) == h + "\n" + c;
    assert Lines([r.body, h, c]) == r.body + "\n" + Lines([h, c]);
    assert Lines([q, r.body, h, c]) == q + "\n" + Lines([r.body, h, c]);
  }

  // ---------------------------------------------------------------- groups

  /** The group of a rule all of whose targets are one of these names. */
  function NameGroup(name: string): Option<Group> {
    if name == "request.body" || name == "request.raw_body" then Some(BodyGroup)
    else if name == "request.url" || name == "request.raw_url" || name == "request.path" || name == "request.query" then Some(UrlGroup)
    else if name == "request.headers" || name == "request.cookies" || name == "request.useragent" then Some(HeadersGroup)
    else if name == "request.method" || name == "request.ip" then Some(AnyGroup)
    else None
  }

  lemma WordAt(word: string, name: string, i: nat)
    requires i + |word| <= |name| && forall j :: 0 <= j < |word| ==> name[i + j] == word[j]
    ensures Occurs(word, name)
  {
    assert name[i..i + |word|] == word;
    assert OccursAt(word, name, i);
  }

  lemma BodyName()
    ensures MentionsBody("request.body") && !MentionsUrl("request.body") && !MentionsHeaders("request.body")
  {
    hide Occurs;
    WordAt("body", "request.body", 8);
    NotUrlWord("request.body");
    NoHeaderWord("request.body");
  }

  lemma RawBodyName()
    ensures MentionsBody("request.raw_body") && !MentionsUrl("request.raw_body") && !MentionsHeaders("request.raw_body")
  {
    hide Occurs;
    WordAt("body", "request.raw_body", 12);
    NotUrlWord("request.raw_body");
    NoHeaderWord("request.raw_body");
  }

  lemma NotUrlWord(name: string)
    requires 'l' !in name && 'p' !in name && forall i :: 0 <= i < |name| - 1 && name[i] == 'r' ==> name[i + 1] != 'y'
    ensures !MentionsUrl(name)
  {
    Absent("url", name, 2);
    Absent("path", name, 0);
    forall i | 0 <= i <= |name| - 5 ensures !OccursAt("query", name, i) {
      assert name[i..i + 5][3] == name[i + 3] && name[i..i + 5][4] == name[i + 4];
    }
  }

  lemma NoBody(name: string)
    requires 'b' !in name
    ensures !MentionsBody(name)
  {
    Absent("body", name, 0);
  }

  lemma NoUrl(name: string)
    requires 'l' !in name && 'p' !in name && 'y' !in name
    ensures !MentionsUrl(name)
  {
    Absent("url", name, 2);
    Absent("path", name, 0);
    Absent("query", name, 4);
  }

  lemma UrlNames()
    ensures MentionsUrl("request.url") && !MentionsBody("request.url") && !MentionsHeaders("request.url")
    ensures MentionsUrl("request.raw_url") && !MentionsBody("request.raw_url") && !MentionsHeaders("request.raw_url")
  {
    hide Occurs;
    WordAt("url", "request.url", 8);
    WordAt("url", "request.raw_url", 12);
    NoBody("request.url");
    NoBody("request.raw_url");
    NoHeaderWord("request.url");
    NoHeaderWord("request.raw_url");
  }

  lemma PathNames()
    ensures MentionsUrl("request.path") && !MentionsBody("request.path") && !MentionsHeaders("request.path")
    ensures MentionsUrl("request.query") && !MentionsBody("request.query") && !MentionsHeaders("request.query")
  {
    hide Occurs;
    WordAt("path", "request.path", 8);
    WordAt("query", "request.query", 8);
    NoBody("request.path");
    NoBody("request.query");
    NoHeaderWord("request.path");
    NoHeaderWord("request.query");
  }

  lemma HeadersName()
    ensures MentionsHeaders("request.headers") && !MentionsBody("request.headers") && !MentionsUrl("request.headers")
  {
    hide Occurs;
    WordAt("header", "request.headers", 8);
    NoBody("request.headers");
    NoUrl("request.headers");
  }

  lemma CookiesName()
    ensures MentionsHeaders("request.cookies") && !MentionsBody("request.cookies") && !MentionsUrl("request.cookies")
  {
    hide Occurs;
    WordAt("cookie", "request.cookies", 8);
    NoBody("request.cookies");
    NoUrl("request.cookies");
  }

  lemma UserAgentName()
    ensures MentionsHeaders("request.useragent") && !MentionsBody("request.useragent") && !MentionsUrl("request.useragent")
  {
    hide Occurs;
    WordAt("useragent", "request.useragent", 8);
    NoBody("request.useragent");
    NoUrl("request.useragent");
  }

  lemma NoHeaderWord(name: string)
    requires 'c' !in name && ('a' !in name || ('g' !in name && ('h' !in name || 'd' !in name)))
    ensures !MentionsHeaders(name)
  {
    Absent("cookie", name, 0);
    if 'a' !in name {
      Absent("header", name, 2);
      Absent("useragent", name, 4);
    } else {
      Absent("useragent", name, 5);
      if 'h' !in name {
        Absent("header", name, 0);
      } else {
        Absent("header", name, 3);
      }
    }
  }

  lemma MethodName()
    ensures !MentionsHeaders("request.method") && !MentionsBody("request.method") && !MentionsUrl("request.method")
  {
    hide Occurs;
    NoHeaderWord("request.method");
    NoBody("request.method");
    NoUrl("request.method");
  }

  lemma IpName()
    ensures !MentionsHeaders("request.ip") && !MentionsBody("request.ip") && !MentionsUrl("request.ip")
  {
    hide Occurs;
    NoHeaderWord("request.ip");
    NoBody("request.ip");
    Absent("url", "request.ip", 2);
    Absent("path", "request.ip", 1);
    Absent("query", "request.ip", 4);
  }

  /** Which words a name of a known group holds. */
  lemma NameWords(name: string)
    requires NameGroup(name).Some?
    ensures MentionsBody(name) <==> NameGroup(name) == Some(BodyGroup)
    ensures MentionsUrl(name) <==> NameGroup(name) == Some(UrlGroup)
    ensures MentionsHeaders(name) <==> NameGroup(name) == Some(HeadersGroup)
  {
    hide MentionsBody, MentionsUrl, MentionsHeaders;
    BodyName();
    RawBodyName();
    UrlNames();
    PathNames();
    HeadersName();
    CookiesName();
    UserAgentName();
    MethodName();
    IpName();
  }

  /** A rule whose targets all have such names is filed with their common group, or with none if they differ. */
  lemma GroupReached(rule: Rule)
    requires rule.targets != map[] && forall t :: t in rule.targets ==> NameGroup(rule.targets[t]).Some?
    ensures forall g :: GroupOf(rule) == g <==>
      if g == AnyGroup then
        exists t, u :: t in rule.targets && u in rule.targets &&
          (NameGroup(rule.targets[t]) == Some(AnyGroup) || NameGroup(rule.targets[t]) != NameGroup(rule.targets[u]))
      else forall t :: t in rule.targets ==> NameGroup(rule.targets[t]) == Some(g)
  {
    hide MentionsBody, MentionsUrl, MentionsHeaders, NameGroup;
    forall t | t in rule.targets
      ensures MentionsBody(rule.targets[t]) <==> NameGroup(rule.targets[t]) == Some(BodyGroup)
      ensures MentionsUrl(rule.targets[t]) <==> NameGroup(rule.targets[t]) == Some(UrlGroup)
      ensures MentionsHeaders(rule.targets[t]) <==> NameGroup(rule.targets[t]) == Some(HeadersGroup)
    {
      NameWords(rule.targets[t]);
    }
    assert rule.targets.Keys != {};
    var t :| t in rule.targets.Keys;
    if forall u :: u in rule.targets ==> NameGroup(rule.targets[u]) == NameGroup(rule.targets[t]) {
      assert forall u :: u in rule.targets ==> NameGroup(rule.targets[u]) == NameGroup(rule.targets[t]);
    } else {
      var u :| u in rule.targets && NameGroup(rule.targets[u]) != NameGroup(rule.targets[t]);
    }
  }
}
