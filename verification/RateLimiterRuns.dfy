/**
 The sliding-window guarantee over every interleaving. A run lists the critical sections in the order
 in which they got the lock; each carries the clock reading taken before it waited and the time at
 which it got the lock.
 */
module RateLimiterRuns {
  import opened RateLimiter
  import opened Sequences

  datatype Event =
    | Increment(key: string, read: int, locked: int)
    | Block(key: string, until: int, locked: int)
    | EraseBlock(key: string, locked: int)
    | Cleanup(read: int, readBlocks: int, locked: int)

  datatype State = State(requests: Requests, blocked: map<string, int>)

  function Step(s: State, e: Event, windowMs: int): State {
    match e
    case Increment(key, read, _) => s.(requests := Pushed(s.requests, key, read, windowMs))
    case Block(key, until, _) => s.(blocked := s.blocked[key := until])
    case EraseBlock(key, _) => s.(blocked := s.blocked - {key})
    case Cleanup(read, readBlocks, _) => State(Cleaned(s.requests, read - windowMs), Unexpired(s.blocked, readBlocks))
  }

  /** The store after the first `n` events when no key is ever evicted. */
  function After(es: seq<Event>, windowMs: int, n: nat): State
    requires n <= |es|
  {
    if n == 0 then State(map[], map[]) else Step(After(es, windowMs, n - 1), es[n - 1], windowMs)
  }

  predicate Increments(e: Event, key: string) {
    e.Increment? && e.key == key
  }

  /** Number of requests in the window that event `i` then reports. */
  function CountAt(es: seq<Event>, windowMs: int, i: nat): nat
    requires i < |es| && es[i].Increment?
  {
    |After(es, windowMs, i + 1).requests[es[i].key]|
  }

  predicate Admitted(es: seq<Event>, windowMs: int, max: nat, key: string, i: nat) {
    i < |es| && Increments(es[i], key) && CountAt(es, windowMs, i) <= max
  }

  /** Lock times never go back, and a clock is read before the lock and at most `lag` earlier. */
  predicate Timed(es: seq<Event>, lag: int) {
    && (forall i, j :: 0 <= i < j < |es| ==> es[i].locked <= es[j].locked)
    && (forall i :: 0 <= i < |es| && (es[i].Increment? || es[i].Cleanup?) ==> es[i].locked - lag <= es[i].read <= es[i].locked)
  }

  // ---------------------------------------------------------------- which requests are in the window

  predicate OfIncrements(es: seq<Event>, q: seq<nat>) {
    forall k :: 0 <= k < |q| ==> q[k] < |es| && es[q[k]].Increment?
  }

  /** Front-popping on event numbers instead of their timestamps. */
  function PopOld(es: seq<Event>, q: seq<nat>, cutoff: int): seq<nat>
    requires OfIncrements(es, q)
  {
    if q != [] && es[q[0]].read <= cutoff then PopOld(es, q[1..], cutoff) else q
  }

  /** Numbers of the events whose timestamps are queued for `key` after `n` events. */
  function Queued(es: seq<Event>, windowMs: int, key: string, n: nat): (q: seq<nat>)
    requires n <= |es|
    ensures forall k :: 0 <= k < |q| ==> q[k] < n && Increments(es[q[k]], key)
    ensures forall k, l :: 0 <= k < l < |q| ==> q[k] < q[l]
  {
    if n == 0 then []
    else
      var q, e := Queued(es, windowMs, key, n - 1), es[n - 1];
      if Increments(e, key) then
        PopOldOf(es, q, key, n - 1, e.read - windowMs);
        PopOld(es, q, e.read - windowMs) + [n - 1]
      else if e.Cleanup? then
        PopOldOf(es, q, key, n - 1, e.read - windowMs);
        PopOld(es, q, e.read - windowMs)
      else q
  }

  /** Earlier events of one key, in order; popping keeps that. */
  predicate QueueOfKey(es: seq<Event>, q: seq<nat>, key: string, n: nat)
    requires n <= |es|
  {
    && (forall k :: 0 <= k < |q| ==> q[k] < n && Increments(es[q[k]], key))
    && (forall k, l :: 0 <= k < l < |q| ==> q[k] < q[l])
  }

  lemma PopOldOf(es: seq<Event>, q: seq<nat>, key: string, n: nat, cutoff: int)
    requires n <= |es| && QueueOfKey(es, q, key, n)
    ensures QueueOfKey(es, PopOld(es, q, cutoff), key, n)
    ensures n < |es| && Increments(es[n], key) ==> QueueOfKey(es, PopOld(es, q, cutoff) + [n], key, n + 1)
  {
    hide PopOld;
    PopOldSuffix(es, q, cutoff);
  }

  lemma {:induction false} PopOldSuffix(es: seq<Event>, q: seq<nat>, cutoff: int)
    requires OfIncrements(es, q)
    ensures var r := PopOld(es, q, cutoff);
            |r| <= |q| && r == q[|q| - |r|..] && OfIncrements(es, r) &&
            forall k :: 0 <= k < |q| - |r| ==> es[q[k]].read <= cutoff
    decreases |q|
  {
    if q != [] && es[q[0]].read <= cutoff {
      PopOldSuffix(es, q[1..], cutoff);
    }
  }

  function Reads(es: seq<Event>, q: seq<nat>): seq<int>
    requires OfIncrements(es, q)
  {
    seq(|q|, k requires 0 <= k < |q| => es[q[k]].read)
  }

  lemma {:induction false} PopOldReads(es: seq<Event>, q: seq<nat>, cutoff: int)
    requires OfIncrements(es, q)
    ensures (PopOldSuffix(es, q, cutoff); Reads(es, PopOld(es, q, cutoff)) == PopExpired(Reads(es, q), cutoff))
    decreases |q|
  {
    if q != [] {
      assert Reads(es, q)[1..] == Reads(es, q[1..]);
      if es[q[0]].read <= cutoff {
        PopOldReads(es, q[1..], cutoff);
      }
    }
  }

  /** The store's queue of a key holds exactly the timestamps of the queued events. */
  lemma {:induction false} StoreHoldsQueued(es: seq<Event>, windowMs: int, key: string, n: nat)
    requires n <= |es|
    ensures QueueOf(After(es, windowMs, n).requests, key) == Reads(es, Queued(es, windowMs, key, n))
  {
    hide QueueOf, Step, PopExpired, PopOld, Reads;
    if n == 0 {
      NothingQueued(es, key);
    } else {
      StoreHoldsQueued(es, windowMs, key, n - 1);
      var q := Queued(es, windowMs, key, n - 1);
      StepQueue(After(es, windowMs, n - 1), es[n - 1], windowMs, key);
      if Increments(es[n - 1], key) || es[n - 1].Cleanup? {
        PopOldReads(es, q, es[n - 1].read - windowMs);
      }
      if Increments(es[n - 1], key) {
        PopOldSuffix(es, q, es[n - 1].read - windowMs);
        ReadsSnoc(es, PopOld(es, q, es[n - 1].read - windowMs), n - 1);
      }
    }
  }

  lemma NothingQueued(es: seq<Event>, key: string)
    ensures QueueOf(map[], key) == Reads(es, [])
  {
  }

  lemma StepQueue(s: State, e: Event, windowMs: int, key: string)
    ensures QueueOf(Step(s, e, windowMs).requests, key) ==
            var q := QueueOf(s.requests, key);
            if Increments(e, key) then PopExpired(q, e.read - windowMs) + [e.read]
            else if e.Cleanup? then PopExpired(q, e.read - windowMs)
            else q
  {
  }

  lemma ReadsSnoc(es: seq<Event>, q: seq<nat>, i: nat)
    requires OfIncrements(es, q) && i < |es| && es[i].Increment?
    ensures OfIncrements(es, q + [i]) && Reads(es, q + [i]) == Reads(es, q) + [es[i].read]
  {
  }

  /** A request stays queued until the clock readings of later events pass it by a whole window. */
  lemma {:induction false} StaysQueued(es: seq<Event>, windowMs: int, key: string, i: nat, n: nat)
    requires i < n <= |es| && Increments(es[i], key)
    requires forall k :: i < k < n && (es[k].Increment? || es[k].Cleanup?) ==> es[k].read - windowMs < es[i].read
    ensures i in Queued(es, windowMs, key, n)
    decreases n
  {
    hide PopOld;
    if i < n - 1 {
      StaysQueued(es, windowMs, key, i, n - 1);
      var e, q := es[n - 1], Queued(es, windowMs, key, n - 1);
      if Increments(e, key) || e.Cleanup? {
        PopKeepsLive(es, q, e.read - windowMs, i);
      }
    }
  }

  lemma PopKeepsLive(es: seq<Event>, q: seq<nat>, cutoff: int, i: nat)
    requires OfIncrements(es, q) && i in q && i < |es| && es[i].Increment? && es[i].read > cutoff
    ensures i in PopOld(es, q, cutoff)
  {
    PopOldSuffix(es, q, cutoff);
    hide PopOld;
    var k: nat :| k < |q| && q[k] == i;
    var r := PopOld(es, q, cutoff);
    assert !(k < |q| - |r|);
    assert r[k - (|q| - |r|)] == q[|q| - |r|..][k - (|q| - |r|)] == i;
  }

  // ---------------------------------------------------------------- the guarantee

  /** Distinct members of a sequence are no more than its length. */
  lemma {:induction false} MembersBound(s: set<nat>, q: seq<nat>)
    requires forall i :: i in s ==> i in q
    ensures |s| <= |q|
    decreases |q|
  {
    if q == [] {
      assert s == {};
    } else {
      MembersBound(s - {q[0]}, q[1..]);
      assert |s - {q[0]}| >= |s| - 1;
    }
  }

  lemma {:induction false} Latest(s: set<nat>) returns (m: nat)
    requires s != {}
    ensures m in s && forall i :: i in s ==> i <= m
    decreases |s|
  {
    m :| m in s;
    if s != {m} {
      assert s == {m} + (s - {m});
      var l := Latest(s - {m});
      m := if l < m then m else l;
    }
  }

  /** If all of `s` is still queued when its last event is counted, `s` is no larger than the count. */
  lemma QueuedTogether(es: seq<Event>, windowMs: int, max: nat, key: string, s: set<nat>, m: nat)
    requires m in s && forall i :: i in s ==> i <= m && Admitted(es, windowMs, max, key, i)
    requires m < |es| && forall i :: i in s ==> i in Queued(es, windowMs, key, m + 1)
    ensures |s| <= max
  {
    StoreHoldsQueued(es, windowMs, key, m + 1);
    MembersBound(s, Queued(es, windowMs, key, m + 1));
  }

  /** Without evictions, by lock time. */
  lemma WindowUnevicted(es: seq<Event>, windowMs: int, lag: int, max: nat, key: string, s: set<nat>)
    requires Timed(es, lag)
    requires forall i :: i in s ==> Admitted(es, windowMs, max, key, i)
    requires forall i, j :: i in s && j in s && i < |es| && j < |es| ==> es[j].locked - es[i].locked < windowMs - lag
    ensures |s| <= max
  {
    hide Queued, CountAt;
    if s != {} {
      var m := Latest(s);
      forall i | i in s ensures i in Queued(es, windowMs, key, m + 1) {
        assert es[m].locked - es[i].locked < windowMs - lag;
        StaysQueued(es, windowMs, key, i, m + 1);
      }
      QueuedTogether(es, windowMs, max, key, s, m);
    }
  }

  /** Without evictions, by clock reading. */
  lemma WindowUnevictedByReading(es: seq<Event>, windowMs: int, lag: int, max: nat, key: string, s: set<nat>)
    requires Timed(es, lag)
    requires forall i :: i in s ==> Admitted(es, windowMs, max, key, i)
    requires forall i, j :: i in s && j in s && i < |es| && j < |es| && es[i].Increment? && es[j].Increment? ==> es[j].read - es[i].read < windowMs - lag
    ensures |s| <= max
  {
    hide Queued, CountAt;
    if s != {} {
      var m := Latest(s);
      forall i | i in s ensures i in Queued(es, windowMs, key, m + 1) {
        assert es[m].read - es[i].read < windowMs - lag;
        StaysQueued(es, windowMs, key, i, m + 1);
      }
      QueuedTogether(es, windowMs, max, key, s, m);
    }
  }

  // ---------------------------------------------------------------- capacity

  /** What each event's eviction takes, if one happens: keys of the window and keys of blocks. */
  type Evictions = nat -> (set<string>, set<string>)

  /** The store after the first `n` events; an increment that finds `maxKeys` keys evicts first. */
  function AfterIn(es: seq<Event>, windowMs: int, maxKeys: nat, evict: Evictions, n: nat): State
    requires n <= |es|
  {
    if n == 0 then State(map[], map[])
    else
      var s, e := AfterIn(es, windowMs, maxKeys, evict, n - 1), es[n - 1];
      var room := if e.Increment? && |s.requests| >= maxKeys
                  then State(s.requests - evict(n - 1).0, s.blocked - evict(n - 1).1) else s;
      Step(room, e, windowMs)
  }

  /** Every key of the run. */
  function KeysOf(es: seq<Event>): set<string> {
    set i | 0 <= i < |es| && es[i].Increment? :: es[i].key
  }

  /** While there are fewer keys than the store may hold, nothing is ever evicted. */
  lemma {:induction false} NoEviction(es: seq<Event>, windowMs: int, maxKeys: nat, evict: Evictions, n: nat)
    requires n <= |es| && |KeysOf(es)| < maxKeys
    ensures AfterIn(es, windowMs, maxKeys, evict, n) == After(es, windowMs, n)
    ensures After(es, windowMs, n).requests.Keys <= KeysOf(es)
    decreases n
  {
    hide PopExpired, Unexpired;
    if n > 0 {
      NoEviction(es, windowMs, maxKeys, evict, n - 1);
      Larger(After(es, windowMs, n - 1).requests.Keys, KeysOf(es));
      if es[n - 1].Increment? {
        assert es[n - 1].key in KeysOf(es);
      }
    }
  }

  /** Event `i` is a request of `key` whose count stays within `max`. */
  predicate AdmittedIn(es: seq<Event>, windowMs: int, maxKeys: nat, evict: Evictions, max: nat, key: string, i: nat) {
    i < |es| && Increments(es[i], key) &&
    var r := AfterIn(es, windowMs, maxKeys, evict, i + 1).requests; key in r && |r[key]| <= max
  }

  lemma SameAdmitted(es: seq<Event>, windowMs: int, maxKeys: nat, evict: Evictions, max: nat, key: string, i: nat)
    requires |KeysOf(es)| < maxKeys
    ensures AdmittedIn(es, windowMs, maxKeys, evict, max, key, i) <==> Admitted(es, windowMs, max, key, i)
  {
    if i < |es| {
      NoEviction(es, windowMs, maxKeys, evict, i + 1);
    }
  }

  /**
   Main result, by lock time: in every run with fewer keys than the store may hold, at most `max`
   requests of a key are admitted within any span shorter than the window less the largest lag. With
   no lag the span is the whole window.
   */
  lemma WindowGuarantee(es: seq<Event>, windowMs: int, lag: int, maxKeys: nat, evict: Evictions, max: nat, key: string, s: set<nat>)
    requires Timed(es, lag) && |KeysOf(es)| < maxKeys
    requires forall i :: i in s ==> AdmittedIn(es, windowMs, maxKeys, evict, max, key, i)
    requires forall i, j :: i in s && j in s && i < |es| && j < |es| ==> es[j].locked - es[i].locked < windowMs - lag
    ensures |s| <= max
  {
    hide AdmittedIn, Admitted, KeysOf, Timed;
    forall i | i in s ensures Admitted(es, windowMs, max, key, i) {
      SameAdmitted(es, windowMs, maxKeys, evict, max, key, i);
    }
    WindowUnevicted(es, windowMs, lag, max, key, s);
  }

  /** The same by clock reading. */
  lemma WindowGuaranteeByReading(es: seq<Event>, windowMs: int, lag: int, maxKeys: nat, evict: Evictions, max: nat, key: string, s: set<nat>)
    requires Timed(es, lag) && |KeysOf(es)| < maxKeys
    requires forall i :: i in s ==> AdmittedIn(es, windowMs, maxKeys, evict, max, key, i)
    requires forall i, j :: i in s && j in s && i < |es| && j < |es| && es[i].Increment? && es[j].Increment? ==> es[j].read - es[i].read < windowMs - lag
    ensures |s| <= max
  {
    hide AdmittedIn, Admitted, KeysOf, Timed;
    forall i | i in s ensures Admitted(es, windowMs, max, key, i) {
      SameAdmitted(es, windowMs, maxKeys, evict, max, key, i);
    }
    WindowUnevictedByReading(es, windowMs, lag, max, key, s);
  }

  /** An eviction takes one key of each map that is not empty. */
  predicate TakesOne<V>(lost: set<string>, m: map<string, V>) {
    lost <= m.Keys && if m == map[] then lost == {} else |lost| == 1
  }

  /** Every eviction that happens is one the store can make. */
  predicate Evicting(es: seq<Event>, windowMs: int, maxKeys: nat, evict: Evictions) {
    forall n: nat {:trigger AfterIn(es, windowMs, maxKeys, evict, n)} :: n < |es| && es[n].Increment? ==>
      var s := AfterIn(es, windowMs, maxKeys, evict, n);
      |s.requests| >= maxKeys ==> TakesOne(evict(n).0, s.requests) && TakesOne(evict(n).1, s.blocked)
  }

  /** Requests of these keys, all at one instant. */
  function AtOnce(keys: seq<string>): seq<Event> {
    seq(|keys|, i requires 0 <= i < |keys| => Increment(keys[i], 0, 0))
  }

  /** Every eviction takes the key of the request before. */
  function LastGoes(keys: seq<string>): Evictions {
    j => (if 0 < j <= |keys| then {keys[j - 1]} else {}, {})
  }

  /** Keys that come once each and never again. */
  predicate Once(keys: seq<string>, m: nat)
    requires m <= |keys|
  {
    forall i, j :: 0 <= i < m && i < j < |keys| ==> keys[i] != keys[j]
  }

  /** One timestamp for each of the first `m` keys, and for the last before `n`. */
  function OneEach(keys: seq<string>, m: nat, n: nat): Requests
    requires m <= |keys| && n <= |keys|
  {
    var ks := keys[..if n < m then n else m] + (if n > 0 then [keys[n - 1]] else []);
    map k | k in ks :: [0]
  }

  lemma PushOne(r: Requests, key: string, windowMs: int)
    requires key !in r
    ensures Pushed(r, key, 0, windowMs) == r[key := [0]]
  {
    assert PopExpired([], 0 - windowMs) + [0] == [0];
  }

  lemma {:induction false} DistinctSize(keys: seq<string>)
    requires Once(keys, |keys|)
    ensures |set k | k in keys| == |keys|
    decreases |keys|
  {
    if keys != [] {
      var n := |keys| - 1;
      DistinctSize(keys[..n]);
      assert (set k | k in keys) == (set k | k in keys[..n]) + {keys[n]};
    }
  }

  /** The store is full from the `m + 1`-th request on, and before that has room. */
  lemma OneEachSize(keys: seq<string>, m: nat, n: nat)
    requires m <= |keys| && n <= |keys| && Once(keys, m)
    ensures |OneEach(keys, m, n)| == if n <= m then n else m + 1
  {
    var ks := if n <= m then keys[..n] else keys[..m] + [keys[n - 1]];
    assert OneEach(keys, m, n).Keys == set k | k in ks;
    DistinctSize(ks);
  }

  predicate Holds(keys: seq<string>, m: nat, n: nat, k: string)
    requires n <= |keys|
  {
    exists i :: 0 <= i < n && (i < m || i == n - 1) && keys[i] == k
  }

  lemma OneEachHolds(keys: seq<string>, m: nat, n: nat)
    requires m <= |keys| && n <= |keys|
    ensures forall k :: k in OneEach(keys, m, n) <==> Holds(keys, m, n, k)
    ensures forall k :: k in OneEach(keys, m, n) ==> OneEach(keys, m, n)[k] == [0]
  {
    var front, last := keys[..if n < m then n else m], if n > 0 then [keys[n - 1]] else [];
    forall k ensures k in OneEach(keys, m, n) <==> Holds(keys, m, n, k) {
      assert k in OneEach(keys, m, n) <==> k in front || k in last;
      if k in front {
        var i :| 0 <= i < |front| && front[i] == k;
        assert keys[i] == k;
      }
      if i :| 0 <= i < n && (i < m || i == n - 1) && keys[i] == k {
        assert i < m ==> front[i] == k;
      }
    }
  }

  lemma HoldsNext(keys: seq<string>, m: nat, n: nat, k: string)
    requires m <= |keys| && n < |keys| && Once(keys, m)
    ensures n <= m ==> !Holds(keys, m, n, keys[n]) && (Holds(keys, m, n + 1, k) <==> k == keys[n] || Holds(keys, m, n, k))
    ensures n > m ==> Holds(keys, m, n, keys[n - 1])
    ensures n > m ==> (Holds(keys, m, n + 1, k) <==> k == keys[n] || (k != keys[n - 1] && Holds(keys, m, n, k)))
    ensures n > m && keys[n] != keys[n - 1] ==> !Holds(keys, m, n, keys[n])
  {
    assert keys[n] == keys[n];
    assert n > 0 ==> keys[n - 1] == keys[n - 1];
  }

  /** One more request: below capacity it joins, at capacity it takes the place of the one before. */
  lemma OneEachNext(keys: seq<string>, m: nat, n: nat)
    requires m <= |keys| && n < |keys| && Once(keys, m)
    ensures n <= m ==> keys[n] !in OneEach(keys, m, n) && OneEach(keys, m, n + 1) == OneEach(keys, m, n)[keys[n] := [0]]
    ensures n > m ==> keys[n - 1] in OneEach(keys, m, n) && keys[n] !in OneEach(keys, m, n) - {keys[n - 1]}
    ensures n > m ==> OneEach(keys, m, n + 1) == (OneEach(keys, m, n) - {keys[n - 1]})[keys[n] := [0]]
  {
    hide OneEach, Once, Holds;
    OneEachHolds(keys, m, n);
    OneEachHolds(keys, m, n + 1);
    forall k
      ensures n <= m ==> !Holds(keys, m, n, keys[n]) && (Holds(keys, m, n + 1, k) <==> k == keys[n] || Holds(keys, m, n, k))
      ensures n > m ==> (Holds(keys, m, n + 1, k) <==> k == keys[n] || (k != keys[n - 1] && Holds(keys, m, n, k)))
    {
      HoldsNext(keys, m, n, k);
    }
    HoldsNext(keys, m, n, keys[n]);
  }

  /** How many other keys leave room for just one. */
  function Room(maxKeys: nat): nat {
    if maxKeys == 0 then 0 else maxKeys - 1
  }

  lemma {:induction false} FullStore(windowMs: int, maxKeys: nat, keys: seq<string>, n: nat)
    requires n <= |keys| && Room(maxKeys) <= |keys| && Once(keys, Room(maxKeys))
    ensures AfterIn(AtOnce(keys), windowMs, maxKeys, LastGoes(keys), n) == State(OneEach(keys, Room(maxKeys), n), map[])
    decreases n
  {
    hide OneEach, Once, Pushed;
    var m := Room(maxKeys);
    if n == 0 {
      OneEachSize(keys, m, 0);
    } else {
      FullStore(windowMs, maxKeys, keys, n - 1);
      var r := OneEach(keys, m, n - 1);
      OneEachSize(keys, m, n - 1);
      OneEachNext(keys, m, n - 1);
      var none: map<string, int> := map[];
      assert none - {} == none;
      if n - 1 > m {
        PushOne(r - {keys[n - 2]}, keys[n - 1], windowMs);
      } else {
        if n == 1 {
          assert r - {} == r;
        }
        PushOne(r, keys[n - 1], windowMs);
      }
    }
  }

  lemma AtOnceEvicting(windowMs: int, maxKeys: nat, keys: seq<string>)
    requires Room(maxKeys) <= |keys| && Once(keys, Room(maxKeys))
    ensures Evicting(AtOnce(keys), windowMs, maxKeys, LastGoes(keys))
  {
    hide OneEach, AfterIn, Once;
    var es, evict := AtOnce(keys), LastGoes(keys);
    forall n: nat | n < |es| && es[n].Increment?
      ensures var s := AfterIn(es, windowMs, maxKeys, evict, n);
        |s.requests| >= maxKeys ==> TakesOne(evict(n).0, s.requests) && TakesOne(evict(n).1, s.blocked)
    {
      FullStore(windowMs, maxKeys, keys, n);
      OneEachSize(keys, Room(maxKeys), n);
      OneEachNext(keys, Room(maxKeys), n);
    }
  }

  /**
   At capacity the guarantee is gone, whatever the capacity: once as many other keys came first as
   leave room for one, every later request is admitted at the same instant, with a maximum of 1.
   */
  lemma FullStoreForgets(windowMs: int, maxKeys: nat, keys: seq<string>, i: nat)
    requires Room(maxKeys) <= i < |keys| && Once(keys, Room(maxKeys))
    ensures Timed(AtOnce(keys), 0) && Evicting(AtOnce(keys), windowMs, maxKeys, LastGoes(keys))
    ensures AdmittedIn(AtOnce(keys), windowMs, maxKeys, LastGoes(keys), 1, keys[i], i)
  {
    hide AfterIn, Once, Evicting;
    AtOnceEvicting(windowMs, maxKeys, keys);
    FullStore(windowMs, maxKeys, keys, i + 1);
    LastThere(keys, Room(maxKeys), i + 1);
  }

  lemma LastThere(keys: seq<string>, m: nat, n: nat)
    requires m <= |keys| && 0 < n <= |keys|
    ensures keys[n - 1] in OneEach(keys, m, n) && OneEach(keys, m, n)[keys[n - 1]] == [0]
  {
  }

  // ---------------------------------------------------------------- how many keys the guarantee bears

  /** In every run with `count` keys at most `max` requests of one key are admitted within the span. */
  ghost predicate Guaranteed(windowMs: int, lag: int, maxKeys: nat, max: nat, count: nat) {
    forall es: seq<Event>, evict: Evictions, key: string, s: set<nat> {:trigger Spans(es, windowMs, lag, maxKeys, evict, max, key, s)} ::
      |KeysOf(es)| == count && Spans(es, windowMs, lag, maxKeys, evict, max, key, s) ==> |s| <= max
  }

  /** Requests `s` of one key, admitted within less than the window less the lag, in a run of the store. */
  predicate Spans(es: seq<Event>, windowMs: int, lag: int, maxKeys: nat, evict: Evictions, max: nat, key: string, s: set<nat>) {
    && Timed(es, lag) && Evicting(es, windowMs, maxKeys, evict)
    && (forall i :: i in s ==> AdmittedIn(es, windowMs, maxKeys, evict, max, key, i))
    && (forall i, j :: i in s && j in s && i < |es| && j < |es| ==> es[j].locked - es[i].locked < windowMs - lag)
  }

  /** The `i`-th of endlessly many keys. */
  function Name(i: nat): (r: string)
    ensures |r| == i
  {
    seq(i, _ => 'k')
  }

  /** `m` keys, then `n` times the next, then the others up to `count`. */
  function Crowd(m: nat, n: nat, count: nat): (r: seq<string>)
    requires m < count
    ensures |r| == n + count - 1
  {
    seq(n + count - 1, i requires 0 <= i < n + count - 1 => Name(if i < m then i else if i < m + n then m else i - n + 1))
  }

  lemma {:induction false} NamesCount(count: nat)
    ensures |set i | 0 <= i < count :: Name(i)| == count
  {
    if count > 0 {
      NamesCount(count - 1);
      assert Name(count - 1) !in set i | 0 <= i < count - 1 :: Name(i);
      assert (set i | 0 <= i < count :: Name(i)) == (set i | 0 <= i < count - 1 :: Name(i)) + {Name(count - 1)};
    }
  }

  lemma CrowdKeys(m: nat, n: nat, count: nat)
    requires m < count && n > 0
    ensures |KeysOf(AtOnce(Crowd(m, n, count)))| == count && Once(Crowd(m, n, count), m)
  {
    var keys := Crowd(m, n, count);
    var es := AtOnce(keys);
    NamesCount(count);
    forall i | 0 <= i < count ensures Name(i) in KeysOf(es) {
      var at := if i <= m then i else i + n - 1;
      assert keys[at] == Name(i) && es[at].key == Name(i);
    }
    assert KeysOf(es) == set i | 0 <= i < count :: Name(i);
  }

  lemma {:induction false} SpanSet(m: nat, n: nat) returns (s: set<nat>)
    ensures |s| == n && forall i :: i in s <==> m <= i < m + n
  {
    if n == 0 {
      s := {};
    } else {
      s := SpanSet(m, n - 1);
      s := s + {m + n - 1};
    }
  }

  lemma Crowded(windowMs: int, lag: int, maxKeys: nat, max: nat, count: nat)
    requires 0 <= lag < windowMs && max >= 1 && count >= 1 && count >= maxKeys
    ensures !Guaranteed(windowMs, lag, maxKeys, max, count)
  {
    hide AfterIn, Once, Evicting, AdmittedIn, Crowd, KeysOf;
    var m, n := Room(maxKeys), max + 1;
    var keys := Crowd(m, n, count);
    var es, evict := AtOnce(keys), LastGoes(keys);
    CrowdKeys(m, n, count);
    var s := SpanSet(m, n);
    forall i | i in s ensures AdmittedIn(es, windowMs, maxKeys, evict, max, Name(m), i) {
      FullStoreForgets(windowMs, maxKeys, keys, i);
      CrowdAt(m, n, count, i);
      AdmittedMore(es, windowMs, maxKeys, evict, max, Name(m), i);
    }
    FullStoreForgets(windowMs, maxKeys, keys, m);
    assert Spans(es, windowMs, lag, maxKeys, evict, max, Name(m), s);
  }

  lemma CrowdAt(m: nat, n: nat, count: nat, i: nat)
    requires m < count && m <= i < m + n
    ensures Crowd(m, n, count)[i] == Name(m)
  {
  }

  lemma AdmittedMore(es: seq<Event>, windowMs: int, maxKeys: nat, evict: Evictions, max: nat, key: string, i: nat)
    requires max >= 1 && AdmittedIn(es, windowMs, maxKeys, evict, 1, key, i)
    ensures AdmittedIn(es, windowMs, maxKeys, evict, max, key, i)
  {
  }

  /** The window is guaranteed for a number of keys if and only if the store may hold more. */
  lemma GuaranteedExactly(windowMs: int, lag: int, maxKeys: nat, max: nat, count: nat)
    requires 0 <= lag < windowMs && max >= 1 && count >= 1
    ensures Guaranteed(windowMs, lag, maxKeys, max, count) <==> count < maxKeys
  {
    hide AdmittedIn, KeysOf, Evicting, Timed;
    if count < maxKeys {
      forall es: seq<Event>, evict: Evictions, key: string, s: set<nat> |
        |KeysOf(es)| == count && Spans(es, windowMs, lag, maxKeys, evict, max, key, s)
        ensures |s| <= max
      {
        WindowGuarantee(es, windowMs, lag, maxKeys, evict, max, key, s);
      }
    } else {
      Crowded(windowMs, lag, maxKeys, max, count);
    }
  }

  // ---------------------------------------------------------------- the span cannot be widened

  /** `max` requests that waited `lag` for the lock, then one a whole window after their reading. */
  function TightRun(windowMs: int, lag: int, max: nat, key: string): seq<Event> {
    seq(max + 1, i => if i < max then Increment(key, 0, lag) else Increment(key, windowMs, windowMs))
  }

  lemma {:induction false} TightQueue(windowMs: int, lag: int, max: nat, key: string, n: nat)
    requires windowMs > 0 && n <= max
    ensures var q := QueueOf(After(TightRun(windowMs, lag, max, key), windowMs, n).requests, key);
            |q| == n && forall k :: 0 <= k < n ==> q[k] == 0
  {
    if n > 0 {
      TightQueue(windowMs, lag, max, key, n - 1);
    }
  }

  lemma {:induction false} AllExpire(q: seq<int>, cutoff: int)
    requires forall k :: 0 <= k < |q| ==> q[k] <= cutoff
    ensures PopExpired(q, cutoff) == []
    decreases |q|
  {
    if q != [] {
      AllExpire(q[1..], cutoff);
    }
  }

  /** For every window and lag, and room for a second key, `max + 1` requests can be admitted within exactly `windowMs - lag`. */
  lemma WindowTight(windowMs: int, lag: int, maxKeys: nat, evict: Evictions, max: nat, key: string)
    requires 0 <= lag < windowMs && max > 0 && maxKeys > 1
    ensures var es := TightRun(windowMs, lag, max, key);
            Timed(es, lag) && |KeysOf(es)| < maxKeys &&
            (forall i: nat :: i <= max ==> AdmittedIn(es, windowMs, maxKeys, evict, max, key, i)) &&
            forall i, j :: 0 <= i <= max && 0 <= j <= max ==> es[j].locked - es[i].locked <= windowMs - lag
  {
    var es := TightRun(windowMs, lag, max, key);
    OneKey(windowMs, lag, max, key);
    forall i: nat | i <= max ensures AdmittedIn(es, windowMs, maxKeys, evict, max, key, i) {
      TightAdmitted(windowMs, lag, max, key, i);
      SameAdmitted(es, windowMs, maxKeys, evict, max, key, i);
    }
  }

  lemma OneKey(windowMs: int, lag: int, max: nat, key: string)
    ensures |KeysOf(TightRun(windowMs, lag, max, key))| <= 1
  {
    Larger(KeysOf(TightRun(windowMs, lag, max, key)), {key});
  }

  lemma TightAdmitted(windowMs: int, lag: int, max: nat, key: string, i: nat)
    requires 0 <= lag < windowMs && max > 0 && i <= max
    ensures Admitted(TightRun(windowMs, lag, max, key), windowMs, max, key, i)
  {
    TightQueue(windowMs, lag, max, key, i);
    var q := QueueOf(After(TightRun(windowMs, lag, max, key), windowMs, i).requests, key);
    if i == max {
      AllExpire(q, 0);
    }
  }

  // ---------------------------------------------------------------- deque and filter

  /** The window as the list form computes it. */
  function Live(dq: seq<int>, cutoff: int): seq<int> {
    if dq == [] then [] else (if dq[0] > cutoff then [dq[0]] else []) + Live(dq[1..], cutoff)
  }

  lemma {:induction false} LiveAll(dq: seq<int>, cutoff: int)
    ensures |Live(dq, cutoff)| <= |dq|
    ensures Live(dq, cutoff) == dq <==> forall k :: 0 <= k < |dq| ==> dq[k] > cutoff
    decreases |dq|
  {
    if dq != [] {
      LiveAll(dq[1..], cutoff);
      assert dq == [dq[0]] + dq[1..];
      if dq[0] > cutoff && Live(dq, cutoff) == dq {
        assert Live(dq, cutoff)[1..] == Live(dq[1..], cutoff);
        forall k | 0 <= k < |dq| ensures dq[k] > cutoff {
          if k > 0 {
            assert dq[k] == dq[1..][k - 1];
          }
        }
      }
    }
  }

  /** No expired timestamp stands behind a live one. */
  predicate Settled(dq: seq<int>, cutoff: int) {
    forall i, j :: 0 <= i < j < |dq| && dq[i] > cutoff ==> dq[j] > cutoff
  }

  lemma SettledTail(dq: seq<int>, cutoff: int)
    requires dq != [] && dq[0] <= cutoff
    ensures Settled(dq, cutoff) <==> Settled(dq[1..], cutoff)
  {
    var t := dq[1..];
    if Settled(t, cutoff) {
      forall i, j | 0 <= i < j < |dq| && dq[i] > cutoff ensures dq[j] > cutoff {
        assert t[i - 1] == dq[i] && t[j - 1] == dq[j];
      }
    }
    if Settled(dq, cutoff) {
      forall i, j | 0 <= i < j < |t| && t[i] > cutoff ensures t[j] > cutoff {
        assert t[i] == dq[i + 1] && t[j] == dq[j + 1];
      }
    }
  }

  /** Front-popping and filtering agree exactly on settled queues. */
  lemma {:induction false} PopIsFilter(dq: seq<int>, cutoff: int)
    ensures PopExpired(dq, cutoff) == Live(dq, cutoff) <==> Settled(dq, cutoff)
    decreases |dq|
  {
    if dq != [] {
      if dq[0] <= cutoff {
        hide Settled;
        PopIsFilter(dq[1..], cutoff);
        SettledTail(dq, cutoff);
      } else {
        LiveAll(dq, cutoff);
      }
    }
  }

  // ---------------------------------------------------------------- the list form over whole runs

  /** One step of the form that filters lists. */
  function ListStep(r: Requests, e: Event, windowMs: int): Requests {
    match e
    case Increment(key, read, _) => r[key := Live(QueueOf(r, key), read - windowMs) + [read]]
    case Cleanup(read, _, _) => ListCleaned(r, read - windowMs)
    case _ => r
  }

  function ListCleaned(r: Requests, cutoff: int): Requests {
    map k | k in r && Live(r[k], cutoff) != [] :: Live(r[k], cutoff)
  }

  function ListAfter(es: seq<Event>, windowMs: int, n: nat): Requests
    requires n <= |es|
  {
    if n == 0 then map[] else ListStep(ListAfter(es, windowMs, n - 1), es[n - 1], windowMs)
  }

  /** Readings for the window never step back. */
  predicate ReadsInOrder(es: seq<Event>) {
    forall i, j :: 0 <= i < j < |es| && Reading(es[i]) && Reading(es[j]) ==> es[i].read <= es[j].read
  }

  predicate Reading(e: Event) {
    e.Increment? || e.Cleanup?
  }

  /** The queue is sorted and no timestamp is later than `now`. */
  ghost predicate Sorted(q: seq<int>, now: int) {
    Ascending(q) && forall t :: t in q ==> t <= now
  }

  ghost predicate SortedUpTo(r: Requests, now: int) {
    forall k :: k in r ==> Sorted(r[k], now)
  }

  /** On a sorted queue popping is filtering, and keeps it sorted. */
  lemma SortedPop(q: seq<int>, cutoff: int, was: int, now: int)
    requires Sorted(q, was) && was <= now
    ensures PopExpired(q, cutoff) == Live(q, cutoff)
    ensures Sorted(Live(q, cutoff) + [now], now) && Sorted(Live(q, cutoff), now)
  {
    hide Live, PopExpired;
    PopIsFilter(q, cutoff);
    SortedSettled(q, cutoff);
    PopSuffix(q, cutoff);
    SuffixAscending(q, |q| - |PopExpired(q, cutoff)|, now);
    var r := PopExpired(q, cutoff);
    assert forall i :: 0 <= i < |r| ==> r[i] == (r + [now])[i];
    forall t | t in r ensures t <= now {
      assert t in r + [now];
    }
  }

  lemma PushIsListPush(r: Requests, key: string, read: int, windowMs: int, now: int)
    requires SortedUpTo(r, now) && now <= read
    ensures var q := Live(QueueOf(r, key), read - windowMs) + [read];
            Pushed(r, key, read, windowMs) == r[key := q] && SortedUpTo(r[key := q], read)
  {
    hide Live, PopExpired, Sorted;
    forall k | k in r ensures Sorted(r[k], read) {
      SortedLonger(r[k], now, read);
    }
    if key in r {
      SortedPop(r[key], read - windowMs, now, read);
    } else {
      SortedEmpty(read - windowMs, read);
    }
  }

  lemma CleanIsListClean(r: Requests, cutoff: int, now: int, read: int)
    requires SortedUpTo(r, now) && now <= read
    ensures Cleaned(r, cutoff) == ListCleaned(r, cutoff) && SortedUpTo(ListCleaned(r, cutoff), read)
  {
    hide Live, PopExpired, Sorted;
    forall k | k in r ensures PopExpired(r[k], cutoff) == Live(r[k], cutoff) && Sorted(Live(r[k], cutoff), read) {
      SortedPop(r[k], cutoff, now, read);
    }
  }

  lemma StepIsListStep(s: State, e: Event, windowMs: int, now: int)
    requires SortedUpTo(s.requests, now) && (Reading(e) ==> now <= e.read)
    ensures Step(s, e, windowMs).requests == ListStep(s.requests, e, windowMs)
    ensures SortedUpTo(ListStep(s.requests, e, windowMs), if Reading(e) then e.read else now)
  {
    hide Live, PopExpired, SortedUpTo, Pushed, Cleaned, ListCleaned, QueueOf, Unexpired;
    match e
    case Increment(key, read, _) => PushIsListPush(s.requests, key, read, windowMs, now);
    case Cleanup(read, _, _) => CleanIsListClean(s.requests, read - windowMs, now, read);
    case _ =>
  }

  lemma SortedLonger(q: seq<int>, was: int, now: int)
    requires Sorted(q, was) && was <= now
    ensures Sorted(q, now)
  {
  }

  lemma SortedEmpty(cutoff: int, now: int)
    ensures PopExpired([], cutoff) == Live([], cutoff) == [] && Sorted([] + [now], now)
  {
  }

  /** The last reading before event `n`, or `from` if there is none. */
  function LastRead(es: seq<Event>, from: int, n: nat): int
    requires n <= |es|
  {
    if n == 0 then from else if Reading(es[n - 1]) then es[n - 1].read else LastRead(es, from, n - 1)
  }

  lemma {:induction false} LastReadBounds(es: seq<Event>, from: int, n: nat)
    requires n < |es| && ReadsInOrder(es) && Reading(es[n]) && forall i :: 0 <= i < |es| && Reading(es[i]) ==> from <= es[i].read
    ensures LastRead(es, from, n) <= es[n].read
  {
    var k: nat := n;
    while k > 0 && !Reading(es[k - 1])
      invariant k <= n && LastRead(es, from, n) == LastRead(es, from, k)
    {
      k := k - 1;
    }
  }

  /**
   With a clock that never steps back, over every run the store with deques holds what the form
   with filtered lists holds, cleanups included, and every queue is sorted.
   */
  lemma {:induction false} DequeIsList(es: seq<Event>, windowMs: int, from: int, n: nat)
    requires n <= |es| && ReadsInOrder(es) && forall i :: 0 <= i < |es| && Reading(es[i]) ==> from <= es[i].read
    ensures After(es, windowMs, n).requests == ListAfter(es, windowMs, n)
    ensures SortedUpTo(ListAfter(es, windowMs, n), LastRead(es, from, n))
    decreases n
  {
    hide Step, ListStep, SortedUpTo, ReadsInOrder;
    if n == 0 {
      NothingSorted(from);
    } else {
      DequeIsList(es, windowMs, from, n - 1);
      if Reading(es[n - 1]) {
        LastReadBounds(es, from, n - 1);
      }
      StepIsListStep(After(es, windowMs, n - 1), es[n - 1], windowMs, LastRead(es, from, n - 1));
    }
  }

  lemma NothingSorted(now: int)
    ensures SortedUpTo(map[], now)
  {
  }

  lemma SortedSettled(q: seq<int>, cutoff: int)
    requires Ascending(q)
    ensures Settled(q, cutoff)
  {
  }

  lemma SuffixAscending(q: seq<int>, k: nat, now: int)
    requires Ascending(q) && k <= |q| && forall t :: t in q ==> t <= now
    ensures Ascending(q[k..] + [now])
    ensures forall t :: t in q[k..] + [now] ==> t <= now
  {
    var r := q[k..] + [now];
    forall i | 0 <= i < |r| - 1 ensures r[i] == q[k + i] && r[i] in q {}
  }

  lemma {:induction false} PopSuffix(dq: seq<int>, cutoff: int)
    ensures var r := PopExpired(dq, cutoff); |r| <= |dq| && r == dq[|dq| - |r|..]
    decreases |dq|
  {
    if dq != [] && dq[0] <= cutoff {
      PopSuffix(dq[1..], cutoff);
    }
  }
}
