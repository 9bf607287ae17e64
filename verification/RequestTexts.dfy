/** How a request is turned into the texts that rules look at. */
module RequestTexts {
  import opened Int64
  import opened Numerals
  import opened Strings
  import opened Wrappers

  /** A map of lists in the order in which it is walked. */
  type Pairs = seq<(string, seq<string>)>

  datatype HttpRequest = HttpRequest(httpMethod: string, url: string, path: string, ip: string, userAgent: string, body: string,
                                     query: Pairs, headers: Pairs, cookies: seq<(string, string)>)

  /** The texts of a request, its query, headers and cookies flattened. */
  datatype Request = Request(url: string, path: string, body: string, httpMethod: string, userAgent: string, ip: string,
                             query: string, headers: string, cookies: string,
                             contentType: string, hostname: string, timestamp: string)

  // ---------------------------------------------------------------- flattening

  predicate Blocked(key: string) {
    key == "__proto__" || key == "constructor" || key == "prototype"
  }

  function Joined(text: string, key: string, value: string): string {
    (if text == "" then "" else text + "&") + (key + "=" + value)
  }

  function Flattened(ps: seq<(string, string)>): string {
    if ps == [] then ""
    else
      var p := ps[|ps| - 1];
      Joined(Flattened(ps[..|ps| - 1]), p.0, p.1)
  }

  function Each(key: string, values: seq<string>): (r: seq<(string, string)>)
    ensures |r| == |values|
  {
    seq(|values|, i requires 0 <= i < |values| => (key, values[i]))
  }

  /** Every value with its key, refused keys left out. */
  function Spread(m: Pairs): seq<(string, string)> {
    if m == [] then []
    else
      var p := m[|m| - 1];
      Spread(m[..|m| - 1]) + if Blocked(p.0) then [] else Each(p.0, p.1)
  }

  function Unblocked(m: seq<(string, string)>): seq<(string, string)> {
    if m == [] then [] else Unblocked(m[..|m| - 1]) + if Blocked(m[|m| - 1].0) then [] else [m[|m| - 1]]
  }

  lemma FlattenedNext(ps: seq<(string, string)>, p: (string, string))
    ensures Flattened(ps + [p]) == Joined(Flattened(ps), p.0, p.1)
  {
    assert (ps + [p])[..|ps|] == ps;
  }

  method SafeStringify(m: Pairs) returns (result: string)
    ensures result == Flattened(Spread(m))
  {
    hide Flattened, Joined;
    result := "";
    assert Flattened([]) == "" by {
      NothingFlattened();
    }
    for i := 0 to |m|
      invariant result == Flattened(Spread(m[..i]))
    {
      var (k, v) := m[i];
      assert m[..i + 1][..i] == m[..i];
      if Blocked(k) {
        assert Spread(m[..i]) + [] == Spread(m[..i]);
        continue;
      }
      ghost var before := Spread(m[..i]);
      assert before + Each(k, v)[..0] == before;
      for j := 0 to |v|
        invariant result == Flattened(before + Each(k, v)[..j])
      {
        assert before + Each(k, v)[..j + 1] == before + Each(k, v)[..j] + [(k, v[j])];
        FlattenedNext(before + Each(k, v)[..j], (k, v[j]));
        result := AddPair(result, k, v[j]);
      }
      assert Each(k, v)[..|v|] == Each(k, v);
    }
    assert m[..|m|] == m;
  }

  lemma NothingFlattened()
    ensures Flattened([]) == ""
  {
  }

  method AddPair(text: string, k: string, v: string) returns (result: string)
    ensures result == Joined(text, k, v)
  {
    result := text;
    if result != "" {
      result := result + "&";
    }
    result := result + (k + "=" + v);
  }

  method SafeStringifyValues(m: seq<(string, string)>) returns (result: string)
    ensures result == Flattened(Unblocked(m))
  {
    hide Joined;
    result := "";
    for i := 0 to |m|
      invariant result == Flattened(Unblocked(m[..i]))
    {
      var (k, v) := m[i];
      assert m[..i + 1][..i] == m[..i];
      if Blocked(k) {
        assert Unblocked(m[..i]) + [] == Unblocked(m[..i]);
        continue;
      }
      FlattenedNext(Unblocked(m[..i]), (k, v));
      result := AddPair(result, k, v);
    }
    assert m[..|m|] == m;
  }

  // ---------------------------------------------------------------- preparing a request

  function Find(m: Pairs, key: string): (r: Option<seq<string>>)
    ensures r.Some? ==> exists i :: 0 <= i < |m| && m[i] == (key, r.value)
  {
    if m == [] then None else if m[0].0 == key then Some(m[0].1) else Find(m[1..], key)
  }

  /** First value of a header under its small name, or under the other only if the small one is missing. */
  function HeaderValue(m: Pairs, small: string, other: string): string {
    match if Find(m, small).Some? then Find(m, small) else Find(m, other)
    case Some(values) => if values == [] then "" else values[0]
    case None => ""
  }

  /** The texts for a request at a clock reading in milliseconds. */
  function Prepare(r: HttpRequest, now: nat): Request {
    Request(r.url, r.path, r.body, r.httpMethod, r.userAgent, r.ip,
            Flattened(Spread(r.query)), Flattened(Spread(r.headers)), Flattened(Unblocked(r.cookies)),
            HeaderValue(r.headers, "content-type", "Content-Type"), HeaderValue(r.headers, "host", "Host"), Decimal(now))
  }

  method PrepareMatchData(r: HttpRequest, now: nat) returns (d: Request)
    ensures d == Prepare(r, now)
  {
    hide Flattened, Spread, Unblocked, Find, Decimal;
    var query := SafeStringify(r.query);
    var headers := SafeStringify(r.headers);
    var cookies := SafeStringifyValues(r.cookies);
    var contentType, hostname := "", "";
    var ct := Find(r.headers, "content-type");
    if ct.None? {
      ct := Find(r.headers, "Content-Type");
    }
    if ct.Some? && ct.value != [] {
      contentType := ct.value[0];
    }
    var host := Find(r.headers, "host");
    if host.None? {
      host := Find(r.headers, "Host");
    }
    if host.Some? && host.value != [] {
      hostname := host.value[0];
    }
    d := Request(r.url, r.path, r.body, r.httpMethod, r.userAgent, r.ip, query, headers, cookies, contentType, hostname, Decimal(now));
  }

  /** A map has each key once. */
  predicate DistinctKeys<T>(m: seq<(string, T)>) {
    forall i, j :: 0 <= i < j < |m| ==> m[i].0 != m[j].0
  }

  /** The texts of some request at some 64-bit clock reading. */
  ghost predicate Prepared(d: Request) {
    exists r: HttpRequest, now: nat ::
      DistinctKeys(r.query) && DistinctKeys(r.headers) && DistinctKeys(r.cookies) && now < LIMIT && d == Prepare(r, now)
  }

  // ---------------------------------------------------------------- what every prepared request has

  lemma {:induction false} SpreadHas(m: Pairs, i: nat)
    requires i < |m| && !Blocked(m[i].0) && m[i].1 != []
    ensures (m[i].0, m[i].1[0]) in Spread(m)
    decreases |m|
  {
    var n := |m| - 1;
    if i < n {
      SpreadHas(m[..n], i);
    } else {
      assert Each(m[i].0, m[i].1)[0] == (m[i].0, m[i].1[0]);
    }
  }

  lemma JoinedOccurs(text: string, key: string, value: string, v: string)
    requires v == value || Occurs(v, text)
    ensures Occurs(v, Joined(text, key, value))
  {
    hide Occurs;
    var front := if text == "" then "" else text + "&";
    if v == value {
      OccursWhole(v);
      OccursBehind(v, key + "=", v);
      OccursBehind(v, front, key + "=" + value);
    } else if text == "" {
      OccursBefore(v, text, key + "=" + value);
      assert text + (key + "=" + value) == Joined(text, key, value);
    } else {
      OccursBefore(v, text, "&");
      OccursBefore(v, front, key + "=" + value);
    }
  }

  /** Every value stands in the flattened text. */
  lemma {:induction false} ValueOccurs(ps: seq<(string, string)>, p: (string, string))
    requires p in ps
    ensures Occurs(p.1, Flattened(ps))
    decreases |ps|
  {
    hide Occurs, Joined;
    var n := |ps| - 1;
    if p != ps[n] {
      assert p in ps[..n];
      ValueOccurs(ps[..n], p);
    }
    JoinedOccurs(Flattened(ps[..n]), ps[n].0, ps[n].1, p.1);
  }

  /** The value of a header that is not refused stands in the flattened headers. */
  lemma HeaderValueOccurs(m: Pairs, small: string, other: string)
    requires !Blocked(small) && !Blocked(other)
    ensures Occurs(HeaderValue(m, small, other), Flattened(Spread(m)))
  {
    hide Occurs, Spread, Flattened;
    var key := if Find(m, small).Some? then small else other;
    var found := Find(m, key);
    if found.Some? && found.value != [] {
      var i :| 0 <= i < |m| && m[i] == (key, found.value);
      SpreadHas(m, i);
      ValueOccurs(Spread(m), (key, found.value[0]));
    } else {
      OccursWhole(Flattened(Spread(m)));
    }
  }

  /** A flattened text is empty or holds an equals sign. */
  lemma FlatHasEquals(ps: seq<(string, string)>)
    ensures Flattened(ps) == "" <==> ps == []
    ensures ps != [] ==> '=' in Flattened(ps)
  {
    if ps != [] {
      var p := ps[|ps| - 1];
      assert '=' in p.0 + "=" + p.1;
    }
  }

  // ---------------------------------------------------------------- reading flattened texts

  lemma {:induction false} SpreadSplits(a: Pairs, b: Pairs)
    ensures Spread(a + b) == Spread(a) + Spread(b)
    decreases |b|
  {
    hide Blocked, Each;
    if b == [] {
      assert a + b == a;
    } else {
      assert (a + b)[|a + b| - 1] == b[|b| - 1];
      assert (a + b)[..|a + b| - 1] == a + b[..|b| - 1];
      SpreadSplits(a, b[..|b| - 1]);
    }
  }

  lemma {:induction false} UnblockedSplits(a: seq<(string, string)>, b: seq<(string, string)>)
    ensures Unblocked(a + b) == Unblocked(a) + Unblocked(b)
    decreases |b|
  {
    hide Blocked;
    if b == [] {
      assert a + b == a;
    } else {
      assert (a + b)[|a + b| - 1] == b[|b| - 1];
      assert (a + b)[..|a + b| - 1] == a + b[..|b| - 1];
      UnblockedSplits(a, b[..|b| - 1]);
    }
  }

  /** One entry gives its key with each value in order, but for three names nothing. */
  lemma SpreadOne(k: string, v: seq<string>)
    ensures var r := Spread([(k, v)]);
      if k in ["__proto__", "constructor", "prototype"] then r == []
      else |r| == |v| && forall i :: 0 <= i < |v| ==> r[i] == (k, v[i])
    ensures forall w :: Unblocked([(k, w)]) == if k in ["__proto__", "constructor", "prototype"] then [] else [(k, w)]
  {
    assert [(k, v)][..0] == [];
    forall w ensures Unblocked([(k, w)]) == if Blocked(k) then [] else [(k, w)] {
      assert [(k, w)][..0] == [];
    }
  }

  function PairTexts(ps: seq<(string, string)>): (r: seq<string>)
    ensures |r| == |ps|
  {
    seq(|ps|, i requires 0 <= i < |ps| => ps[i].0 + ("=" + ps[i].1))
  }

  /** The text before the first equals sign and the text behind it. */
  function Cut(t: string): (string, string) {
    if t == "" then ("", "") else if t[0] == '=' then ("", t[1..]) else ([t[0]] + Cut(t[1..]).0, Cut(t[1..]).1)
  }

  lemma {:induction false} CutBack(k: string, v: string)
    requires '=' !in k
    ensures Cut(k + ("=" + v)) == (k, v)
    decreases |k|
  {
    if k != "" {
      assert (k + ("=" + v))[1..] == k[1..] + ("=" + v);
      CutBack(k[1..], v);
      assert [k[0]] + k[1..] == k;
    } else {
      assert k + ("=" + v) == "=" + v;
    }
  }

  /** Pairs between ampersands, each cut at its first equals sign. */
  function ReadPairs(t: string): seq<(string, string)> {
    if t == "" then [] else seq(|Split(t, '&')|, i requires 0 <= i < |Split(t, '&')| => Cut(Split(t, '&')[i]))
  }

  lemma {:induction false} FlattenedIsJoin(ps: seq<(string, string)>)
    ensures Flattened(ps) == Join(PairTexts(ps), '&')
    decreases |ps|
  {
    hide Join;
    if ps == [] {
      NothingJoined();
      assert PairTexts(ps) == [];
    } else {
      var init, p := ps[..|ps| - 1], ps[|ps| - 1];
      FlattenedIsJoin(init);
      assert PairTexts(ps) == PairTexts(init) + [p.0 + ("=" + p.1)];
      JoinNext(PairTexts(init), p.0 + ("=" + p.1), '&');
      FlatHasEquals(init);
      assert p.0 + "=" + p.1 == p.0 + ("=" + p.1);
      assert Flattened(init) + "&" + (p.0 + "=" + p.1) == Flattened(init) + (['&'] + (p.0 + ("=" + p.1)));
    }
  }

  lemma NothingJoined()
    ensures Join([], '&') == ""
  {
  }

  /** Flattened pairs are read back, if no key holds a separator and no value an ampersand. */
  lemma FlattenedBack(ps: seq<(string, string)>)
    requires forall i :: 0 <= i < |ps| ==> '=' !in ps[i].0 && '&' !in ps[i].0 && '&' !in ps[i].1
    ensures ReadPairs(Flattened(ps)) == ps
  {
    hide Flattened, Join, Split, Cut;
    FlattenedIsJoin(ps);
    FlatHasEquals(ps);
    if ps != [] {
      var ts := PairTexts(ps);
      forall i | 0 <= i < |ts| ensures '&' !in ts[i] && Cut(ts[i]) == ps[i] {
        CutBack(ps[i].0, ps[i].1);
      }
      SplitJoin(ts, '&');
    }
  }

  // ---------------------------------------------------------------- clock readings

  /** The digits of some clock reading of 64 bits hold these. */
  predicate InClock(p: string) {
    AllDigits(p) && (|p| <= 18 || (|p| == 19 && p[0] != '0' && Positional(p) < LIMIT))
  }

  function Clock(p: string): nat
    requires InClock(p)
  {
    if |p| <= 18 then Positional("1" + p) else Positional(p)
  }

  lemma ClockHolds(p: string)
    requires InClock(p)
    ensures Clock(p) < LIMIT && Occurs(p, Decimal(Clock(p)))
  {
    hide Occurs, Decimal, Positional;
    OccursWhole(p);
    if |p| <= 18 {
      PositionalFront('1', p);
      PowerGrows(10, |p|, 18);
      Power18();
      assert ['1'] + p == "1" + p;
      DecimalBack("1" + p);
      OccursBehind(p, "1", p);
    } else {
      DecimalBack(p);
    }
  }

  /** Exactly these digits occur in a clock reading. */
  lemma InClockExactly(p: string)
    ensures InClock(p) <==> exists now: nat :: now < LIMIT && Occurs(p, Decimal(now))
  {
    hide Occurs, Decimal, Positional;
    if InClock(p) {
      ClockHolds(p);
    }
    forall now: nat | now < LIMIT && Occurs(p, Decimal(now)) ensures InClock(p) {
      ReadingHolds(p, now);
    }
  }

  lemma ReadingHolds(p: string, now: nat)
    requires now < LIMIT && Occurs(p, Decimal(now))
    ensures InClock(p)
  {
    hide Occurs, Decimal, Positional;
    Power18();
    DecimalLength(now, 18);
    DecimalPositional(now);
    OccursChars(p, Decimal(now));
    OccursFits(p, Decimal(now));
    if |p| == 19 {
      WholeOnly(p, Decimal(now));
      assert now > 0 by {
        if now == 0 {
          ZeroShort();
        }
      }
      NoLeadingZero(now);
    }
  }

  lemma ZeroShort()
    ensures |Decimal(0)| == 1
  {
  }
}
