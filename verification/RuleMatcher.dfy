/** Evaluation of rule conditions and the compiled matcher with its prefilters. */
module RuleMatcher {
  import opened RequestTexts
  import opened RuleSyntax
  import opened Strings
  import AC = AhoCorasick
  import opened Wrappers

  /** A literal or regex pattern of a rule. */
  datatype RuleString = RuleString(literal: bool, pattern: string, nocase: bool, hasCompiled: bool)

  datatype Rule = Rule(
    name: string,
    tags: seq<string>,
    meta: map<string, string>,
    targets: map<string, string>,
    strings: map<string, RuleString>,
    condition: Option<Condition>,
    sourceFile: string)

  /** Regex matching is foreign: pattern, case flag and non-empty text to a verdict. */
  type Engine = (string, bool, string) -> bool

  // ---------------------------------------------------------------- surfaces

  datatype Surface =
    | Url | Path | Body | HttpMethod | UserAgent | Ip | RawUrl | RawBody | QueryString | HeaderString | CookieString
    | SessionId | GeoIp | Fingerprint | Rate | ContentType | Hostname | Protocol | Timestamp | Full

  function FullText(d: Request): string {
    d.url + ("\n" + (d.query + ("\n" + (d.body + ("\n" + (d.headers + ("\n" + d.cookies)))))))
  }

  function Text(d: Request, t: Surface): string {
    match t
    case Url => d.url
    case Path => d.path
    case Body => d.body
    case HttpMethod => d.httpMethod
    case UserAgent => d.userAgent
    case Ip => d.ip
    case RawUrl => d.url
    case RawBody => d.body
    case QueryString => d.query
    case HeaderString => d.headers
    case CookieString => d.cookies
    case SessionId => ""
    case GeoIp => ""
    case Fingerprint => ""
    case Rate => ""
    case ContentType => d.contentType
    case Hostname => d.hostname
    case Protocol => "http"
    case Timestamp => d.timestamp
    case Full => FullText(d)
  }

  /** Names of request parts in rule files; other names stand for themselves. */
  function Mapped(target: string): string {
    match target
    case "request.url" => "url"
    case "request.path" => "path"
    case "request.body" => "body"
    case "request.query" => "queryString"
    case "request.headers" => "headerString"
    case "request.cookies" => "cookieString"
    case "request.method" => "method"
    case "request.useragent" => "userAgent"
    case "request.user_agent" => "userAgent"
    case "request.ip" => "ip"
    case "request.raw_url" => "rawUrl"
    case "request.raw_body" => "rawBody"
    case "request.session" => "sessionId"
    case "request.sessionid" => "sessionId"
    case "request.timestamp" => "timestamp"
    case "request.time" => "timestamp"
    case "request.geoip" => "geoipString"
    case "request.geo" => "geoipString"
    case "request.fingerprint" => "fingerprintString"
    case "request.fp" => "fingerprintString"
    case "request.rate" => "rateString"
    case "request.content_type" => "contentType"
    case "request.hostname" => "hostname"
    case "request.protocol" => "protocol"
    case _ => target
  }

  /** The surface of a mapped name; unknown names fall back to the whole request. */
  function Named(mapped: string): Surface {
    match mapped
    case "url" => Url
    case "path" => Path
    case "body" => Body
    case "queryString" => QueryString
    case "headerString" => HeaderString
    case "cookieString" => CookieString
    case "method" => HttpMethod
    case "userAgent" => UserAgent
    case "ip" => Ip
    case "rawUrl" => RawUrl
    case "rawBody" => RawBody
    case "sessionId" => SessionId
    case "geoipString" => GeoIp
    case "fingerprintString" => Fingerprint
    case "rateString" => Rate
    case "contentType" => ContentType
    case "hostname" => Hostname
    case "protocol" => Protocol
    case "timestamp" => Timestamp
    case _ => Full
  }

  function ResolveTarget(name: string, rule: Rule): Surface {
    if name in rule.targets then Named(Mapped(rule.targets[name])) else Full
  }

  // ---------------------------------------------------------------- evaluation

  function LowerChar(c: char): char {
    if 'A' <= c <= 'Z' then c + ' ' else c
  }

  function Lower(s: string): (l: string)
    ensures |l| == |s|
  {
    seq(|s|, i requires 0 <= i < |s| => LowerChar(s[i]))
  }

  predicate TestPattern(eng: Engine, def: RuleString, text: string) {
    def.hasCompiled && text != "" &&
    if !def.literal then eng(def.pattern, def.nocase, text)
    else if def.nocase then Occurs(Lower(def.pattern), Lower(text))
    else Occurs(def.pattern, text)
  }

  /** A declared pattern matches; an undeclared name never does. */
  predicate Hits(eng: Engine, rule: Rule, name: string, text: string) {
    name in rule.strings && TestPattern(eng, rule.strings[name], text)
  }

  predicate Evaluate(eng: Engine, c: Condition, rule: Rule, d: Request) {
    match c
    case And(l, r) => Evaluate(eng, l, rule, d) && Evaluate(eng, r, rule, d)
    case Or(l, r) => Evaluate(eng, l, rule, d) || Evaluate(eng, r, rule, d)
    case Not(e) => !Evaluate(eng, e, rule, d)
    case Match(x) => Hits(eng, rule, x, FullText(d))
    case MatchIn(x, t) => Hits(eng, rule, x, Text(d, ResolveTarget(t, rule)))
    case AnyOfThem => exists x :: x in rule.strings && TestPattern(eng, rule.strings[x], FullText(d))
    case AllOfThem => forall x :: x in rule.strings ==> TestPattern(eng, rule.strings[x], FullText(d))
    case AnyOf(vars) => exists i :: 0 <= i < |vars| && Hits(eng, rule, vars[i], FullText(d))
    case AllOf(vars) => forall i :: 0 <= i < |vars| ==> Hits(eng, rule, vars[i], FullText(d))
    case Boolean(b) => b
  }

  /** What the rule says without any prefilter; a rule without condition accepts everything. */
  predicate Accepts(eng: Engine, rule: Rule, d: Request) {
    rule.condition.None? || Evaluate(eng, rule.condition.value, rule, d)
  }

  // ---------------------------------------------------------------- what compilation decides

  datatype Group = AnyGroup | UrlGroup | BodyGroup | HeadersGroup

  predicate MentionsBody(target: string) {
    Occurs("body", target)
  }

  predicate MentionsUrl(target: string) {
    Occurs("url", target) || Occurs("path", target) || Occurs("query", target)
  }

  predicate MentionsHeaders(target: string) {
    Occurs("header", target) || Occurs("cookie", target) || Occurs("useragent", target)
  }

  function GroupOf(rule: Rule): Group {
    if rule.targets == map[] then AnyGroup
    else if forall v :: v in rule.targets ==> MentionsBody(rule.targets[v]) then BodyGroup
    else if forall v :: v in rule.targets ==> MentionsUrl(rule.targets[v]) then UrlGroup
    else if forall v :: v in rule.targets ==> MentionsHeaders(rule.targets[v]) then HeadersGroup
    else AnyGroup
  }

  function InGroup(rules: seq<Rule>, g: Group): seq<Rule> {
    if rules == [] then []
    else InGroup(rules[..|rules| - 1], g) + if GroupOf(rules[|rules| - 1]) == g then [rules[|rules| - 1]] else []
  }

  /** A literal long enough to become a keyword of the automaton. */
  predicate IsHook(def: RuleString) {
    def.literal && |def.pattern| >= 3
  }

  function Keyword(def: RuleString): string {
    if def.nocase then Lower(def.pattern) else def.pattern
  }

  predicate HasHook(rule: Rule) {
    exists x :: x in rule.strings && IsHook(rule.strings[x])
  }

  /** Names of rules with a hook; rules that share such a name are filtered too. */
  ghost predicate LiteralName(rules: seq<Rule>, name: string) {
    exists i :: 0 <= i < |rules| && rules[i].name == name && HasHook(rules[i])
  }

  /** Keyword and output that a rule contributes to the automaton. */
  ghost predicate RuleKeyword(rule: Rule, p: (string, string)) {
    exists x :: x in rule.strings && IsHook(rule.strings[x]) && p == (Keyword(rule.strings[x]), rule.name)
  }

  ghost predicate IsKeyword(rules: seq<Rule>, p: (string, string)) {
    exists i :: 0 <= i < |rules| && RuleKeyword(rules[i], p)
  }

  datatype Context = Context(allRules: seq<Rule>, groupUrl: seq<Rule>, groupBody: seq<Rule>, groupHeaders: seq<Rule>,
                             groupAny: seq<Rule>, aho: AC.AhoCorasick, literalRules: set<string>)

  ghost predicate Compiled(ctx: Context, rules: seq<Rule>)
    reads ctx.aho
  {
    && ctx.allRules == rules
    && ctx.groupUrl == InGroup(rules, UrlGroup) && ctx.groupBody == InGroup(rules, BodyGroup)
    && ctx.groupHeaders == InGroup(rules, HeadersGroup) && ctx.groupAny == InGroup(rules, AnyGroup)
    && (forall name :: name in ctx.literalRules <==> LiteralName(rules, name))
    && ctx.aho.Valid() && ctx.aho.compiled && !ctx.aho.nullRoot
    && (forall p :: p in ctx.aho.dict <==> IsKeyword(rules, p))
  }

  method Categorize(rule: Rule) returns (g: Group)
    ensures g == GroupOf(rule)
  {
    var bodyOnly, urlOnly, headersOnly := true, true, true;
    if rule.targets == map[] {
      bodyOnly, urlOnly, headersOnly := false, false, false;
    } else {
      var todo := rule.targets.Keys;
      while todo != {}
        invariant todo <= rule.targets.Keys
        invariant bodyOnly <==> forall v :: v in rule.targets && v !in todo ==> MentionsBody(rule.targets[v])
        invariant urlOnly <==> forall v :: v in rule.targets && v !in todo ==> MentionsUrl(rule.targets[v])
        invariant headersOnly <==> forall v :: v in rule.targets && v !in todo ==> MentionsHeaders(rule.targets[v])
      {
        var v :| v in todo;
        var target := rule.targets[v];
        todo := todo - {v};
        if !MentionsBody(target) {
          bodyOnly := false;
        }
        if !MentionsUrl(target) {
          urlOnly := false;
        }
        if !MentionsHeaders(target) {
          headersOnly := false;
        }
      }
    }
    g := if bodyOnly then BodyGroup else if urlOnly then UrlGroup else if headersOnly then HeadersGroup else AnyGroup;
  }

  /** Adds the hooks of one rule to the automaton. */
  method AddHooks(aho: AC.AhoCorasick, rule: Rule) returns (hasLiteral: bool)
    requires aho.Valid() && !aho.compiled
    modifies aho
    ensures aho.Valid() && !aho.compiled
    ensures hasLiteral == HasHook(rule)
    ensures forall p :: p in aho.dict <==> p in old(aho.dict) || RuleKeyword(rule, p)
  {
    hasLiteral := false;
    var todo := rule.strings.Keys;
    while todo != {}
      invariant todo <= rule.strings.Keys && aho.Valid() && !aho.compiled
      invariant hasLiteral <==> exists x :: x in rule.strings && x !in todo && IsHook(rule.strings[x])
      invariant forall p :: p in aho.dict <==> (
                  p in old(aho.dict) ||
                  exists x :: x in rule.strings && x !in todo && IsHook(rule.strings[x]) && p == (Keyword(rule.strings[x]), rule.name))
    {
      var x :| x in todo;
      var def := rule.strings[x];
      todo := todo - {x};
      if IsHook(def) {
        aho.Add(Keyword(def), rule.name);
        hasLiteral := true;
      }
    }
  }

  method CompileRules(rules: seq<Rule>) returns (ctx: Context)
    ensures fresh(ctx.aho) && Compiled(ctx, rules)
  {
    hide InGroup, GroupOf, IsKeyword, LiteralName, RuleKeyword, HasHook, AC.AhoCorasick.Valid;
    var aho := new AC.AhoCorasick(false);
    NoRules();
    var url: seq<Rule>, body: seq<Rule>, headers: seq<Rule>, any: seq<Rule> := [], [], [], [];
    var literalRules: set<string> := {};
    for i := 0 to |rules|
      invariant fresh(aho) && aho.Valid() && !aho.compiled
      invariant url == InGroup(rules[..i], UrlGroup) && body == InGroup(rules[..i], BodyGroup)
      invariant headers == InGroup(rules[..i], HeadersGroup) && any == InGroup(rules[..i], AnyGroup)
      invariant forall name :: name in literalRules <==> LiteralName(rules[..i], name)
      invariant forall p :: p in aho.dict <==> IsKeyword(rules[..i], p)
    {
      var rule := rules[i];
      var g := Categorize(rule);
      OneMoreInGroups(rules, i);
      match g {
        case BodyGroup => body := body + [rule];
        case UrlGroup => url := url + [rule];
        case HeadersGroup => headers := headers + [rule];
        case AnyGroup => any := any + [rule];
      }
      var hasLiteral := AddHooks(aho, rule);
      if hasLiteral {
        literalRules := literalRules + {rule.name};
      }
      OneMoreRule(rules, i);
    }
    assert rules[..|rules|] == rules;
    aho.Build();
    ctx := Context(rules, url, body, headers, any, aho, literalRules);
  }

  lemma NoRules()
    ensures forall g :: InGroup([], g) == []
    ensures (forall name :: !LiteralName([], name)) && forall p :: !IsKeyword([], p)
  {
  }

  lemma OneMoreInGroups(rules: seq<Rule>, i: nat)
    requires i < |rules|
    ensures forall g {:trigger InGroup(rules[..i + 1], g)} ::
      InGroup(rules[..i + 1], g) == InGroup(rules[..i], g) + if GroupOf(rules[i]) == g then [rules[i]] else []
  {
    assert rules[..i + 1][..i] == rules[..i];
  }

  lemma OneMoreRule(rules: seq<Rule>, i: nat)
    requires i < |rules|
    ensures forall name :: LiteralName(rules[..i + 1], name) <==>
              LiteralName(rules[..i], name) || (rules[i].name == name && HasHook(rules[i]))
    ensures forall p :: IsKeyword(rules[..i + 1], p) <==> IsKeyword(rules[..i], p) || RuleKeyword(rules[i], p)
  {
    hide RuleKeyword, HasHook;
    var before, after := rules[..i], rules[..i + 1];
    assert after[i] == rules[i] && forall k :: 0 <= k < i ==> after[k] == before[k];
    forall name ensures LiteralName(after, name) <==> LiteralName(before, name) || (rules[i].name == name && HasHook(rules[i])) {
      if LiteralName(before, name) {
        var k :| 0 <= k < |before| && before[k].name == name && HasHook(before[k]);
        assert after[k].name == name;
      }
    }
    forall p ensures IsKeyword(after, p) <==> IsKeyword(before, p) || RuleKeyword(rules[i], p) {
      if IsKeyword(before, p) {
        var k :| 0 <= k < |before| && RuleKeyword(before[k], p);
        assert RuleKeyword(after[k], p);
      }
    }
  }

  // ---------------------------------------------------------------- matching

  /** The rules whose group is looked at for this request, in the order of the groups. */
  function Active(rules: seq<Rule>, d: Request): seq<Rule> {
    InGroup(rules, AnyGroup) + InGroup(rules, UrlGroup)
      + (if d.body != "" then InGroup(rules, BodyGroup) else [])
      + (if d.headers != "" then InGroup(rules, HeadersGroup) else [])
  }

  /** Some hook filed under this rule name occurs in the lower-cased request. */
  ghost predicate NameHit(rules: seq<Rule>, text: string, name: string) {
    exists i, x :: 0 <= i < |rules| && rules[i].name == name && x in rules[i].strings && IsHook(rules[i].strings[x]) &&
                   Occurs(Keyword(rules[i].strings[x]), Lower(text))
  }

  ghost predicate Prefiltered(rules: seq<Rule>, d: Request, rule: Rule) {
    LiteralName(rules, rule.name) && !NameHit(rules, FullText(d), rule.name)
  }

  /** The rules the matcher reports, in order. */
  ghost function Reported(eng: Engine, rules: seq<Rule>, d: Request, active: seq<Rule>): seq<Rule> {
    if active == [] then []
    else
      var rule := active[|active| - 1];
      Reported(eng, rules, d, active[..|active| - 1]) +
      if !Prefiltered(rules, d, rule) && Accepts(eng, rule, d) then [rule] else []
  }

  datatype WafMatch = WafMatch(rule: string, tags: seq<string>, severity: string, category: string, description: string,
                               author: string, sourceFile: string, matchedPatterns: seq<(string, string)>)

  function GetOr(m: map<string, string>, key: string, default: string): string {
    if key in m then m[key] else default
  }

  /** The report of one rule; its matched patterns are listed in some order, each once. */
  ghost predicate Describes(eng: Engine, m: WafMatch, rule: Rule, d: Request) {
    && m.rule == rule.name && m.tags == rule.tags
    && m.severity == GetOr(rule.meta, "severity", "medium")
    && m.category == GetOr(rule.meta, "category", if rule.tags != [] then rule.tags[0] else "unknown")
    && m.description == GetOr(rule.meta, "description", "")
    && m.author == GetOr(rule.meta, "author", "ShieldWall")
    && m.sourceFile == (if rule.sourceFile == "" then "inline" else rule.sourceFile)
    && (forall q :: q in m.matchedPatterns <==> q.1 == "(matched)" && Hits(eng, rule, q.0, FullText(d)))
    && (forall i, j :: 0 <= i < j < |m.matchedPatterns| ==> m.matchedPatterns[i] != m.matchedPatterns[j])
  }

  method MatchedPatterns(eng: Engine, rule: Rule, text: string) returns (ps: seq<(string, string)>)
    ensures forall q :: q in ps <==> q.1 == "(matched)" && Hits(eng, rule, q.0, text)
    ensures forall i, j :: 0 <= i < j < |ps| ==> ps[i] != ps[j]
  {
    ps := [];
    var todo := rule.strings.Keys;
    while todo != {}
      invariant todo <= rule.strings.Keys
      invariant forall q :: q in ps <==> q.1 == "(matched)" && q.0 !in todo && Hits(eng, rule, q.0, text)
      invariant forall i, j :: 0 <= i < j < |ps| ==> ps[i] != ps[j]
    {
      var x :| x in todo;
      if TestPattern(eng, rule.strings[x], text) {
        ps := ps + [(x, "(matched)")];
      }
      todo := todo - {x};
    }
  }

  method Describe(eng: Engine, rule: Rule, d: Request) returns (m: WafMatch)
    ensures Describes(eng, m, rule, d)
  {
    var patterns := MatchedPatterns(eng, rule, FullText(d));
    m := WafMatch(rule.name, rule.tags, GetOr(rule.meta, "severity", "medium"),
                  GetOr(rule.meta, "category", if rule.tags != [] then rule.tags[0] else "unknown"),
                  GetOr(rule.meta, "description", ""), GetOr(rule.meta, "author", "ShieldWall"),
                  if rule.sourceFile == "" then "inline" else rule.sourceFile, patterns);
  }

  ghost predicate Reports(eng: Engine, matches: seq<WafMatch>, reported: seq<Rule>, d: Request) {
    |matches| == |reported| && forall i :: 0 <= i < |matches| ==> Describes(eng, matches[i], reported[i], d)
  }

  lemma ReportsNone(eng: Engine, rules: seq<Rule>, d: Request)
    ensures Reported(eng, rules, d, []) == [] && Reports(eng, [], [], d)
  {
  }

  lemma ReportedNext(eng: Engine, rules: seq<Rule>, d: Request, active: seq<Rule>, i: nat)
    requires i < |active|
    ensures var before := Reported(eng, rules, d, active[..i]);
            Reported(eng, rules, d, active[..i + 1]) ==
            if !Prefiltered(rules, d, active[i]) && Accepts(eng, active[i], d) then before + [active[i]] else before
  {
    hide Prefiltered, Accepts;
    assert active[..i + 1][..i] == active[..i];
  }

  lemma ReportsNext(eng: Engine, matches: seq<WafMatch>, reported: seq<Rule>, d: Request, m: WafMatch, rule: Rule)
    requires Reports(eng, matches, reported, d) && Describes(eng, m, rule, d)
    ensures Reports(eng, matches + [m], reported + [rule], d)
  {
    hide Describes;
  }

  method MatchCompiledRules(eng: Engine, ctx: Context, r: HttpRequest, now: nat, ghost rules: seq<Rule>)
    returns (matches: seq<WafMatch>)
    requires Compiled(ctx, rules)
    ensures var d := Prepare(r, now); Reports(eng, matches, Reported(eng, rules, d, Active(rules, d)), d)
  {
    hide Describes, Accepts, FullText, Lower, NameHit, LiteralName, IsKeyword, AC.HitBy, AC.AhoCorasick.Valid, InGroup;
    hide Reported, Reports, Prepare;
    matches := [];
    var d := PrepareMatchData(r, now);
    ReportsNone(eng, rules, d);
    var activeRules := ctx.groupAny + ctx.groupUrl;
    if d.body != "" {
      activeRules := activeRules + ctx.groupBody;
    }
    if d.headers != "" {
      activeRules := activeRules + ctx.groupHeaders;
    }
    assert activeRules == Active(rules, d);
    var hits, _ := ctx.aho.Search(Lower(FullText(d)));
    HookHits(rules, ctx.aho.dict, FullText(d));
    for i := 0 to |activeRules|
      invariant Reports(eng, matches, Reported(eng, rules, d, activeRules[..i]), d)
    {
      ReportedNext(eng, rules, d, activeRules, i);
      var rule := activeRules[i];
      if rule.name in ctx.literalRules && rule.name !in hits {
        continue;
      }
      if !Accepts(eng, rule, d) {
        continue;
      }
      var m := Describe(eng, rule, d);
      ReportsNext(eng, matches, Reported(eng, rules, d, activeRules[..i]), d, m, rule);
      matches := matches + [m];
    }
    assert activeRules[..|activeRules|] == activeRules;
  }

  /** What the automaton finds is exactly the hook hits by rule name. */
  lemma HookHits(rules: seq<Rule>, dict: AC.Dict, text: string)
    requires forall p :: p in dict <==> IsKeyword(rules, p)
    ensures forall name :: AC.HitBy(dict, Lower(text), name) <==> NameHit(rules, text, name)
  {
    forall name ensures AC.HitBy(dict, Lower(text), name) <==> NameHit(rules, text, name) {
      if AC.HitBy(dict, Lower(text), name) {
        var p :| p in dict && p.1 == name && p.0 != [] && Occurs(p.0, Lower(text));
        assert IsKeyword(rules, p);
      }
      if NameHit(rules, text, name) {
        var i, x :| 0 <= i < |rules| && rules[i].name == name && x in rules[i].strings && IsHook(rules[i].strings[x]) &&
                    Occurs(Keyword(rules[i].strings[x]), Lower(text));
        var p := (Keyword(rules[i].strings[x]), name);
        assert RuleKeyword(rules[i], p);
        assert IsKeyword(rules, p);
      }
    }
  }
}
