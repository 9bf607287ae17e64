/** Whole runs of the connection tracker: order of the index, token budget, and harmless sweeps. */
module ConnTrackerRuns {
  import opened ConnTracker
  import opened Sequences
  import opened Wrappers

  /** A request, or the second phase of a sweep with keys collected at any earlier time. */
  datatype Event = Request(ip: string, limit: nat, now: int) | Sweep(keys: seq<string>)

  /** Options, fixed during a run. */
  datatype Config = Config(maxSize: nat, perMs: real)

  function Step(c: Config, st: State, e: Event): State {
    match e
    case Request(ip, limit, now) => Checked(st, c.maxSize, c.perMs, ip, limit, now)
    case Sweep(keys) => DroppedAll(st, keys)
  }

  function After(c: Config, st: State, evs: seq<Event>): State
    decreases |evs|
  {
    if evs == [] then st else Step(c, After(c, st, evs[..|evs| - 1]), evs[|evs| - 1])
  }

  const EMPTY := State(map[], [])

  /** In every reachable state list and map agree and the size is within the bound. */
  lemma {:induction false} ReachableAgrees(c: Config, evs: seq<Event>)
    ensures Agree(After(c, EMPTY, evs)) && |After(c, EMPTY, evs).tracker| <= Bound(c.maxSize)
    decreases |evs|
  {
    hide Checked;
    if evs != [] {
      ReachableAgrees(c, evs[..|evs| - 1]);
      StepAgrees(c, After(c, EMPTY, evs[..|evs| - 1]), evs[|evs| - 1]);
    }
  }

  lemma StepAgrees(c: Config, st: State, e: Event)
    requires Agree(st) && |st.tracker| <= Bound(c.maxSize)
    ensures Agree(Step(c, st, e)) && |Step(c, st, e).tracker| <= Bound(c.maxSize)
  {
    hide Agree, Checked, DroppedAll;
    match e {
      case Request(ip, limit, now) => CheckedAgrees(st, c.maxSize, c.perMs, ip, limit, now);
      case Sweep(keys) =>
        DroppedAllAgrees(st, keys);
        SameSize(st);
        SameSize(DroppedAll(st, keys));
    }
  }

  // ---------------------------------------------------------------- least recently used

  /** The list is in order of the entries' last refill. */
  ghost predicate Ascending(m: map<string, Entry>, s: seq<string>) {
    (forall k :: k in s ==> k in m) &&
    forall i, j :: 0 <= i < j < |s| ==> m[s[i]].lastRefill <= m[s[j]].lastRefill
  }

  ghost predicate Until(m: map<string, Entry>, t: int) {
    forall k :: k in m ==> m[k].lastRefill <= t
  }

  lemma {:induction false} WithoutAscends(m: map<string, Entry>, s: seq<string>, k: string)
    requires Ascending(m, s)
    ensures Ascending(m, Without(s, k))
  {
    if s != [] {
      var t := Without(s[1..], k);
      assert forall i :: 0 < i < |s| ==> s[i] == s[1..][i - 1];
      WithoutAscends(m, s[1..], k);
      forall j | 0 <= j < |t| ensures m[s[0]].lastRefill <= m[t[j]].lastRefill {
        assert t[j] in s[1..];
        var i :| 0 <= i < |s[1..]| && s[1..][i] == t[j];
        assert s[i + 1] == t[j];
      }
    }
  }

  lemma SnocAscends(m: map<string, Entry>, n: map<string, Entry>, s: seq<string>, ip: string, now: int)
    requires Ascending(m, s) && Until(m, now) && ip !in s
    requires ip in n && n[ip].lastRefill == now
    requires forall k :: k in s ==> k in n && n[k] == m[k]
    ensures Ascending(n, s + [ip])
  {
    forall i, j | 0 <= i < j < |s + [ip]| ensures n[(s + [ip])[i]].lastRefill <= n[(s + [ip])[j]].lastRefill {
      assert (s + [ip])[i] == s[i] && s[i] in s;
      if j < |s| {
        assert (s + [ip])[j] == s[j] && s[j] in s;
      }
    }
  }

  lemma EvictedAscends(st: State)
    requires Agree(st) && Ascending(st.tracker, st.lru)
    ensures Ascending(Evicted(st).tracker, Evicted(st).lru)
  {
    EvictedAgrees(st);
    if st.lru != [] {
      assert forall i :: 0 <= i < |st.lru[1..]| ==> st.lru[1..][i] == st.lru[i + 1];
    }
  }

  lemma CheckedAscends(st: State, maxSize: nat, perMs: real, ip: string, limit: nat, now: int)
    requires Agree(st) && Ascending(st.tracker, st.lru) && Until(st.tracker, now)
    ensures var r := Checked(st, maxSize, perMs, ip, limit, now);
      Ascending(r.tracker, r.lru) && Until(r.tracker, now) && r.tracker[ip].lastRefill == now
  {
    hide Ascending, Without;
    var r := Checked(st, maxSize, perMs, ip, limit, now);
    if ip in st.tracker {
      WithoutAscends(st.tracker, st.lru, ip);
      SnocAscends(st.tracker, r.tracker, Without(st.lru, ip), ip, now);
    } else {
      var room := if |st.tracker| >= maxSize then Evicted(st) else st;
      EvictedAscends(st);
      EvictedAgrees(st);
      SnocAscends(room.tracker, r.tracker, room.lru, ip, now);
    }
  }

  lemma {:induction false} DroppedAllAscends(st: State, ks: seq<string>, t: int)
    requires Agree(st) && Ascending(st.tracker, st.lru) && Until(st.tracker, t)
    ensures var r := DroppedAll(st, ks); Ascending(r.tracker, r.lru) && Until(r.tracker, t)
    decreases |ks|
  {
    if ks != [] {
      var d := Dropped(st, ks[0]);
      WithoutAscends(st.tracker, st.lru, ks[0]);
      DroppedAgrees(st, ks[0]);
      DroppedAllAscends(d, ks[1..], t);
    }
  }

  /** Requests come in order of the clock, none after `t`. */
  predicate Monotone(evs: seq<Event>, t: int)
    decreases |evs|
  {
    evs == [] ||
    var e, before := evs[|evs| - 1], evs[..|evs| - 1];
    match e
    case Request(_, _, now) => now <= t && Monotone(before, now)
    case Sweep(_) => Monotone(before, t)
  }

  lemma {:induction false} ReachableAscends(c: Config, evs: seq<Event>, t: int)
    requires Monotone(evs, t)
    ensures var st := After(c, EMPTY, evs); Ascending(st.tracker, st.lru) && Until(st.tracker, t)
    decreases |evs|
  {
    if evs != [] {
      hide Ascending, Agree, Checked, DroppedAll;
      var before := evs[..|evs| - 1];
      var st := After(c, EMPTY, before);
      ReachableAgrees(c, before);
      match evs[|evs| - 1] {
        case Request(ip, limit, now) =>
          ReachableAscends(c, before, now);
          CheckedAscends(st, c.maxSize, c.perMs, ip, limit, now);
        case Sweep(keys) =>
          ReachableAscends(c, before, t);
          DroppedAllAscends(st, keys, t);
      }
    }
  }

  /** Time of the last request of `k`, which there must be. */
  ghost predicate LastAt(evs: seq<Event>, k: string, t: int) {
    exists i :: 0 <= i < |evs| && evs[i].Request? && evs[i].ip == k && evs[i].now == t
      && forall j :: i < j < |evs| && evs[j].Request? ==> evs[j].ip != k
  }

  lemma {:induction false} DroppedAllKeeps(st: State, ks: seq<string>, k: string)
    requires k in DroppedAll(st, ks).tracker
    ensures k in st.tracker && k !in ks && DroppedAll(st, ks).tracker[k] == st.tracker[k]
    decreases |ks|
  {
    if ks != [] {
      DroppedAllKeeps(Dropped(st, ks[0]), ks[1..], k);
    }
  }

  /** A step that is not a request of `k` changes nothing about `k`, unless it drops it. */
  lemma OthersKeep(c: Config, st: State, e: Event, k: string)
    requires k in Step(c, st, e).tracker && !(e.Request? && e.ip == k)
    ensures k in st.tracker && Step(c, st, e).tracker[k] == st.tracker[k]
  {
    if e.Sweep? {
      DroppedAllKeeps(st, e.keys, k);
    }
  }

  lemma LastAtGrows(evs: seq<Event>, e: Event, k: string, t: int)
    requires if e.Request? && e.ip == k then e.now == t else LastAt(evs, k, t)
    ensures LastAt(evs + [e], k, t)
  {
    if e.Request? && e.ip == k {
      assert (evs + [e])[|evs|] == e;
    } else {
      var i :| 0 <= i < |evs| && evs[i].Request? && evs[i].ip == k && evs[i].now == t
        && forall j :: i < j < |evs| && evs[j].Request? ==> evs[j].ip != k;
      assert (evs + [e])[i] == evs[i];
    }
  }

  lemma {:induction false} RefilledAtLastRequest(c: Config, evs: seq<Event>, t: int, k: string)
    requires Monotone(evs, t) && k in After(c, EMPTY, evs).tracker
    ensures LastAt(evs, k, After(c, EMPTY, evs).tracker[k].lastRefill)
    decreases |evs|
  {
    hide LastAt, Checked, DroppedAll;
    var before, e := evs[..|evs| - 1], evs[|evs| - 1];
    var st := After(c, EMPTY, before);
    assert evs == before + [e];
    if e.Request? && e.ip == k {
      ReachableAgrees(c, before);
      ReachableAscends(c, before, e.now);
      CheckedAscends(st, c.maxSize, c.perMs, k, e.limit, e.now);
    } else {
      OthersKeep(c, st, e, k);
      RefilledAtLastRequest(c, before, if e.Request? then e.now else t, k);
    }
    LastAtGrows(before, e, k, After(c, EMPTY, evs).tracker[k].lastRefill);
  }

  /**
   * With a clock that never steps back, the key an eviction would take from any reachable state
   * made its last request no later than any other key in the tracker.
   */
  lemma EvictionTakesLeastRecent(c: Config, evs: seq<Event>, t: int, k: string)
    requires Monotone(evs, t)
    requires var st := After(c, EMPTY, evs); k in st.tracker
    ensures var st := After(c, EMPTY, evs); st.lru != [] && st.lru[0] in st.tracker
    ensures var st := After(c, EMPTY, evs);
      exists u, v :: LastAt(evs, st.lru[0], u) && LastAt(evs, k, v) && u <= v
  {
    var st := After(c, EMPTY, evs);
    ReachableAgrees(c, evs);
    ReachableAscends(c, evs, t);
    var i :| 0 <= i < |st.lru| && st.lru[i] == k;
    assert st.lru[0] in st.lru;
    RefilledAtLastRequest(c, evs, t, k);
    RefilledAtLastRequest(c, evs, t, st.lru[0]);
  }

  // ---------------------------------------------------------------- one address

  function Times(evs: seq<Event>, ip: string): seq<int>
    decreases |evs|
  {
    if evs == [] then []
    else
      var e := evs[|evs| - 1];
      Times(evs[..|evs| - 1], ip) + if e.Request? && e.ip == ip then [e.now] else []
  }

  predicate SameLimit(evs: seq<Event>, ip: string, limit: nat) {
    forall i :: 0 <= i < |evs| && evs[i].Request? && evs[i].ip == ip ==> evs[i].limit == limit
  }

  function Find(st: State, ip: string): Option<Entry> {
    if ip in st.tracker then Some(st.tracker[ip]) else None
  }

  /** The entry of one address after its requests at `times`, were it alone and never dropped. */
  function Served(o: Option<Entry>, limit: nat, perMs: real, times: seq<int>): Option<Entry>
    decreases |times|
  {
    if times == [] then o
    else
      var t := times[|times| - 1];
      var e := Served(o, limit, perMs, times[..|times| - 1]);
      Some(Charged(if e.None? then Entry(limit as real, t) else e.value, limit, perMs, t))
  }

  /** Once in the tracker, `ip` stays there. */
  predicate Kept(c: Config, st: State, evs: seq<Event>, ip: string)
    decreases |evs|
  {
    evs == [] ||
    var before := evs[..|evs| - 1];
    Kept(c, st, before, ip) && (ip in After(c, st, before).tracker ==> ip in After(c, st, evs).tracker)
  }

  /** Other addresses and sweeps do not interfere with an address that is kept. */
  lemma {:induction false} RunServes(c: Config, st: State, evs: seq<Event>, ip: string, limit: nat)
    requires SameLimit(evs, ip, limit) && Kept(c, st, evs, ip)
    ensures Find(After(c, st, evs), ip) == Served(Find(st, ip), limit, c.perMs, Times(evs, ip))
    decreases |evs|
  {
    if evs != [] {
      hide Charged;
      var before, e := evs[..|evs| - 1], evs[|evs| - 1];
      RunServes(c, st, before, ip, limit);
      if e.Request? && e.ip == ip {
        assert Times(evs, ip)[..|Times(evs, ip)| - 1] == Times(before, ip);
      } else {
        assert Times(evs, ip) == Times(before, ip);
        if ip in After(c, st, evs).tracker {
          OthersKeep(c, After(c, st, before), e, ip);
        }
      }
    }
  }

  /** Every address that can appear. */
  ghost predicate Within(evs: seq<Event>, all: set<string>) {
    forall i :: 0 <= i < |evs| && evs[i].Request? ==> evs[i].ip in all
  }

  ghost predicate NotSwept(evs: seq<Event>, ip: string) {
    forall i :: 0 <= i < |evs| && evs[i].Sweep? ==> ip !in evs[i].keys
  }

  lemma {:induction false} UnsweptStays(st: State, ks: seq<string>, ip: string)
    ensures DroppedAll(st, ks).tracker.Keys <= st.tracker.Keys
    ensures ip in st.tracker && ip !in ks ==> ip in DroppedAll(st, ks).tracker
    decreases |ks|
  {
    if ks != [] {
      UnsweptStays(Dropped(st, ks[0]), ks[1..], ip);
    }
  }

  /** As long as all addresses fit, none is evicted, so an address the sweeps leave alone is kept. */
  lemma {:induction false} KeptWhenAllFit(c: Config, st: State, evs: seq<Event>, ip: string, all: set<string>)
    requires st.tracker.Keys <= all && Within(evs, all) && |all| <= c.maxSize && NotSwept(evs, ip)
    ensures Kept(c, st, evs, ip) && After(c, st, evs).tracker.Keys <= all
    decreases |evs|
  {
    if evs != [] {
      var before, e := evs[..|evs| - 1], evs[|evs| - 1];
      KeptWhenAllFit(c, st, before, ip, all);
      var mid := After(c, st, before);
      if e.Sweep? {
        UnsweptStays(mid, e.keys, ip);
      } else if e.ip !in mid.tracker {
        Smaller(mid.tracker.Keys, all, e.ip);
      }
    }
  }

  // ---------------------------------------------------------------- token budget

  /** All of `times` lie in the span of `span` milliseconds from `from`. */
  predicate InSpan(times: seq<int>, from: int, span: nat) {
    forall i :: 0 <= i < |times| ==> from <= times[i] <= from + span
  }

  lemma MulMonotone(x: real, y: real, r: real)
    requires x <= y && r >= 0.0
    ensures x * r <= y * r
  {
  }

  /** A request takes one token and gains at most what its bucket refilled. */
  lemma ChargeBound(e: Entry, limit: nat, perMs: real, now: int)
    requires perMs >= 0.0
    ensures var f := Charged(e, limit, perMs, now);
      f.lastRefill == (if now > e.lastRefill then now else e.lastRefill) &&
      f.tokens + 1.0 <= e.tokens + (f.lastRefill - e.lastRefill) as real * perMs &&
      (e.tokens <= limit as real ==> f.tokens + 1.0 <= limit as real)
  {
  }

  lemma {:induction false} Budget(o: Option<Entry>, limit: nat, perMs: real, times: seq<int>, from: int, span: nat)
    returns (first: int)
    requires perMs >= 0.0 && times != [] && InSpan(times, from, span)
    requires o.Some? ==> o.value.tokens <= limit as real
    ensures var e := Served(o, limit, perMs, times).value;
      from <= first <= e.lastRefill && (e.lastRefill == first || e.lastRefill <= from + span) &&
      e.tokens + |times| as real <= limit as real + (e.lastRefill - first) as real * perMs
    decreases |times|
  {
    hide Charged;
    var before, t := times[..|times| - 1], times[|times| - 1];
    var p := Served(o, limit, perMs, before);
    var e := if p.None? then Entry(limit as real, t) else p.value;
    ChargeBound(e, limit, perMs, t);
    var f := Charged(e, limit, perMs, t);
    if before == [] {
      first := f.lastRefill;
      assert (f.lastRefill - first) as real * perMs == 0.0;
    } else {
      first := Budget(o, limit, perMs, before, from, span);
      assert (f.lastRefill - first) as real * perMs
        == (f.lastRefill - e.lastRefill) as real * perMs + (e.lastRefill - first) as real * perMs;
    }
  }

  lemma PerSecond(span: real, perSec: real)
    ensures span * (perSec / 1000.0) == perSec * span / 1000.0
  {
  }

  /**
   * In any run, if `ip` is kept and its last request is not flagged, then its requests in a span
   * of `span` ms number at most the limit plus what the bucket refills in that time, whatever the
   * clock does within the span.
   */
  lemma RequestsWithinBudget(c: Config, st: State, evs: seq<Event>, ip: string, limit: nat, perSec: real, from: int, span: nat)
    requires perSec >= 0.0 && c.perMs == perSec / 1000.0
    requires Kept(c, st, evs, ip) && SameLimit(evs, ip, limit)
    requires ip in st.tracker ==> st.tracker[ip].tokens <= limit as real
    requires Times(evs, ip) != [] && InSpan(Times(evs, ip), from, span)
    requires ip in After(c, st, evs).tracker && After(c, st, evs).tracker[ip].tokens >= 0.0
    ensures |Times(evs, ip)| as real <= limit as real + perSec * span as real / 1000.0
  {
    hide After, Served, Times, Kept, SameLimit, InSpan;
    RunServes(c, st, evs, ip, limit);
    var times := Times(evs, ip);
    var first := Budget(Find(st, ip), limit, c.perMs, times, from, span);
    var e := Served(Find(st, ip), limit, c.perMs, times).value;
    MulMonotone((e.lastRefill - first) as real, span as real, c.perMs);
    PerSecond(span as real, perSec);
  }

  /** The hypothesis about the first entry holds in every run that starts empty. */
  lemma {:induction false} NeverAboveLimit(c: Config, evs: seq<Event>, ip: string, limit: nat)
    requires SameLimit(evs, ip, limit) && ip in After(c, EMPTY, evs).tracker
    ensures After(c, EMPTY, evs).tracker[ip].tokens <= limit as real - 1.0
    decreases |evs|
  {
    var before, e := evs[..|evs| - 1], evs[|evs| - 1];
    var st := After(c, EMPTY, before);
    if e.Request? && e.ip == ip {
      if ip in st.tracker {
        NeverAboveLimit(c, before, ip, limit);
      }
    } else {
      OthersKeep(c, st, e, ip);
      NeverAboveLimit(c, before, ip, limit);
    }
  }

  // ---------------------------------------------------------------- harmless sweeps

  /** Flags of the requests of one address at `times`. */
  function Verdicts(o: Option<Entry>, limit: nat, perMs: real, times: seq<int>): (r: seq<bool>)
    ensures |r| == |times|
    decreases |times|
  {
    if times == [] then []
    else
      Verdicts(o, limit, perMs, times[..|times| - 1]) + [Served(o, limit, perMs, times).value.tokens < 0.0]
  }

  /** At a time when the entry has refilled, dropping it changes nothing. */
  lemma {:induction false} FullIsFresh(e: Entry, limit: nat, perMs: real, times: seq<int>, now: int)
    requires perMs >= 0.0 && e.lastRefill < now && times != [] && times[0] >= now
    requires e.tokens + (now - e.lastRefill) as real * perMs >= limit as real
    ensures Served(Some(e), limit, perMs, times) == Served(None, limit, perMs, times)
    ensures Verdicts(Some(e), limit, perMs, times) == Verdicts(None, limit, perMs, times)
    decreases |times|
  {
    var before, t := times[..|times| - 1], times[|times| - 1];
    if before == [] {
      MulMonotone((now - e.lastRefill) as real, (t - e.lastRefill) as real, perMs);
      assert Verdicts(Some(e), limit, perMs, before) == Verdicts(None, limit, perMs, before) == [];
    } else {
      hide Charged;
      FullIsFresh(e, limit, perMs, before, now);
    }
  }

  /** With limit 0 every request is flagged. */
  lemma {:induction false} NothingAllowed(o: Option<Entry>, perMs: real, times: seq<int>)
    requires o.Some? ==> o.value.tokens <= 0.0
    ensures times != [] ==> Served(o, 0, perMs, times).value.tokens <= -1.0
    ensures Verdicts(o, 0, perMs, times) == seq(|times|, _ => true)
    decreases |times|
  {
    if times != [] {
      NothingAllowed(o, perMs, times[..|times| - 1]);
    }
  }

  /** A burst of `n` requests at one instant takes `n` tokens. */
  lemma {:induction false} Burst(o: Option<Entry>, limit: nat, perMs: real, now: int, n: nat)
    requires n > 0
    ensures Served(o, limit, perMs, seq(n, _ => now)) == Some(Entry(
      (if o.None? then limit as real else Refilled(o.value, limit, perMs, now).tokens) - n as real,
      if o.None? then now else Refilled(o.value, limit, perMs, now).lastRefill))
    decreases n
  {
    var times := seq(n, _ => now);
    assert times[..|times| - 1] == seq(n - 1, _ => now);
    if n > 1 {
      Burst(o, limit, perMs, now, n - 1);
    } else {
      assert times[..|times| - 1] == [];
    }
  }

  lemma BurstDiffers(e: Entry, limit: nat, perMs: real, now: int)
    requires e.lastRefill < now && limit > 0
    requires e.tokens + (now - e.lastRefill) as real * perMs < limit as real
    ensures Verdicts(Some(e), limit, perMs, seq(limit, _ => now)) != Verdicts(None, limit, perMs, seq(limit, _ => now))
  {
    var times := seq(limit, _ => now);
    Burst(Some(e), limit, perMs, now, limit);
    Burst(None, limit, perMs, now, limit);
    assert Verdicts(Some(e), limit, perMs, times)[limit - 1];
    assert !Verdicts(None, limit, perMs, times)[limit - 1];
  }

  /**
   * Dropping the idle entry `e` at time `now` changes no verdict on later requests exactly when its
   * bucket would be full by `now`, or no request is ever allowed.
   */
  lemma DropHarmlessExactly(e: Entry, limit: nat, perMs: real, now: int)
    requires perMs >= 0.0 && e.lastRefill < now && e.tokens <= limit as real
    ensures (forall times: seq<int> :: times == [] || times[0] >= now ==>
               Verdicts(Some(e), limit, perMs, times) == Verdicts(None, limit, perMs, times))
       <==> limit == 0 || e.tokens + (now - e.lastRefill) as real * perMs >= limit as real
  {
    hide Served;
    if limit == 0 {
      forall times: seq<int> ensures Verdicts(Some(e), limit, perMs, times) == Verdicts(None, limit, perMs, times) {
        NothingAllowed(Some(e), perMs, times);
        NothingAllowed(None, perMs, times);
      }
    } else if e.tokens + (now - e.lastRefill) as real * perMs >= limit as real {
      forall times: seq<int> | times == [] || times[0] >= now
        ensures Verdicts(Some(e), limit, perMs, times) == Verdicts(None, limit, perMs, times)
      {
        if times != [] {
          FullIsFresh(e, limit, perMs, times, now);
        }
      }
    } else {
      var times := seq(limit, _ => now);
      assert times[0] >= now;
      BurstDiffers(e, limit, perMs, now);
    }
  }
}
