/** Token buckets per address behind an index in order of use, and the sweep that drops idle ones. */
module ConnTracker {
  import opened Sequences

  datatype Entry = Entry(tokens: real, lastRefill: int)

  /** The map and the list of its keys, least recently used first. */
  datatype State = State(tracker: map<string, Entry>, lru: seq<string>)

  predicate Distinct(s: seq<string>) {
    forall i, j :: 0 <= i < j < |s| ==> s[i] != s[j]
  }

  /** List and map hold the same keys, each once. */
  ghost predicate Agree(st: State) {
    Distinct(st.lru) && forall k :: k in st.tracker <==> k in st.lru
  }

  /** The entry being served is kept even when the bound is 0. */
  function Bound(maxSize: nat): nat {
    if maxSize == 0 then 1 else maxSize
  }

  function Evicted(st: State): State {
    if st.lru == [] then st else State(st.tracker - {st.lru[0]}, st.lru[1..])
  }

  /** The entry of `ip` exists and is last in the list. */
  function Admitted(st: State, maxSize: nat, ip: string, limit: nat, now: int): State {
    if ip in st.tracker then State(st.tracker, Without(st.lru, ip) + [ip])
    else
      var room := if |st.tracker| >= maxSize then Evicted(st) else st;
      State(room.tracker[ip := Entry(limit as real, now)], room.lru + [ip])
  }

  function Refilled(e: Entry, limit: nat, perMs: real, now: int): Entry {
    if now <= e.lastRefill then e
    else
      var t := e.tokens + (now - e.lastRefill) as real * perMs;
      Entry(if t > limit as real then limit as real else t, now)
  }

  function Charged(e: Entry, limit: nat, perMs: real, now: int): Entry {
    var f := Refilled(e, limit, perMs, now);
    Entry(f.tokens - 1.0, f.lastRefill)
  }

  /** One request: admit, refill, take one token. */
  function Checked(st: State, maxSize: nat, perMs: real, ip: string, limit: nat, now: int): (r: State)
    ensures ip in r.tracker
  {
    var a := Admitted(st, maxSize, ip, limit, now);
    State(a.tracker[ip := Charged(a.tracker[ip], limit, perMs, now)], a.lru)
  }

  function Dropped(st: State, k: string): State {
    if k in st.tracker then State(st.tracker - {k}, Without(st.lru, k)) else st
  }

  function DroppedAll(st: State, ks: seq<string>): State
    decreases |ks|
  {
    if ks == [] then st else DroppedAll(Dropped(st, ks[0]), ks[1..])
  }

  // ---------------------------------------------------------------- what every step keeps

  lemma {:induction false} WithoutDistinct(s: seq<string>, k: string)
    requires Distinct(s)
    ensures Distinct(Without(s, k)) && |Without(s, k)| == |s| - if k in s then 1 else 0
  {
    if s != [] {
      WithoutDistinct(s[1..], k);
      var t := Without(s[1..], k);
      assert forall i :: 0 <= i < |t| ==> t[i] in t;
      assert forall i :: 0 < i < |s| ==> s[i] == s[1..][i - 1];
      assert s[0] !in s[1..];
    }
  }

  lemma {:induction false} DistinctSize(s: seq<string>, keys: set<string>)
    requires Distinct(s) && forall k :: k in keys <==> k in s
    ensures |keys| == |s|
  {
    if s == [] {
      assert keys == {};
    } else {
      assert forall i :: 0 < i < |s| ==> s[i] == s[1..][i - 1];
      assert s[0] !in s[1..];
      DistinctSize(s[1..], keys - {s[0]});
    }
  }

  lemma SameSize(st: State)
    requires Agree(st)
    ensures |st.tracker| == |st.lru|
  {
    DistinctSize(st.lru, st.tracker.Keys);
  }

  lemma EvictedAgrees(st: State)
    requires Agree(st)
    ensures Agree(Evicted(st)) && |Evicted(st).lru| == |st.lru| - if st.lru == [] then 0 else 1
  {
    if st.lru != [] {
      assert forall i :: 0 < i < |st.lru| ==> st.lru[i] == st.lru[1..][i - 1];
      assert st.lru[0] !in st.lru[1..];
    }
  }

  lemma DroppedAgrees(st: State, k: string)
    requires Agree(st)
    ensures Agree(Dropped(st, k)) && |Dropped(st, k).lru| <= |st.lru|
  {
    WithoutDistinct(st.lru, k);
  }

  lemma {:induction false} DroppedAllAgrees(st: State, ks: seq<string>)
    requires Agree(st)
    ensures Agree(DroppedAll(st, ks)) && |DroppedAll(st, ks).lru| <= |st.lru|
    decreases |ks|
  {
    if ks != [] {
      DroppedAgrees(st, ks[0]);
      DroppedAllAgrees(Dropped(st, ks[0]), ks[1..]);
    }
  }

  /** A request keeps the agreement, and the size within the bound, which is at least 1. */
  lemma CheckedAgrees(st: State, maxSize: nat, perMs: real, ip: string, limit: nat, now: int)
    requires Agree(st) && |st.tracker| <= Bound(maxSize)
    ensures Agree(Checked(st, maxSize, perMs, ip, limit, now))
    ensures |Checked(st, maxSize, perMs, ip, limit, now).tracker| <= Bound(maxSize)
  {
    hide Charged;
    WithoutDistinct(st.lru, ip);
    EvictedAgrees(st);
    SameSize(st);
    SameSize(Checked(st, maxSize, perMs, ip, limit, now));
  }

  lemma AdmittedIn(st: State, maxSize: nat, ip: string, limit: nat, now: int)
    ensures ip in Admitted(st, maxSize, ip, limit, now).tracker
  {
  }

  // ---------------------------------------------------------------- the tracker object

  class Tracker {
    const maxSize: nat
    const windowMs: int
    const perSec: real
    const gcChunk: nat
    var tracker: map<string, Entry>
    var lru: seq<string>

    constructor (maxSize: nat, windowMs: int, perSec: real, gcChunk: nat)
      requires gcChunk > 0
      ensures this.maxSize == maxSize && this.windowMs == windowMs && this.perSec == perSec && this.gcChunk == gcChunk
      ensures Abstract() == State(map[], []) && Valid()
    {
      this.maxSize, this.windowMs, this.perSec, this.gcChunk := maxSize, windowMs, perSec, gcChunk;
      tracker, lru := map[], [];
    }

    function Abstract(): State
      reads this
    {
      State(tracker, lru)
    }

    ghost predicate Valid()
      reads this
    {
      gcChunk > 0 && Agree(Abstract()) && |tracker| <= Bound(maxSize)
    }

    method TouchLru(ip: string)
      requires ip in tracker
      modifies this`lru
      ensures lru == Without(old(lru), ip) + [ip]
    {
      lru := Without(lru, ip) + [ip];
    }

    method EvictOldest()
      modifies this
      ensures Abstract() == Evicted(old(Abstract()))
    {
      if lru == [] {
        return;
      }
      var oldest := lru[0];
      lru := lru[1..];
      tracker := tracker - {oldest};
    }

    /** Finds the entry of `ip` and marks it used, or makes room and inserts a full bucket. */
    method Admit(ip: string, limit: nat, now: int)
      modifies this
      ensures Abstract() == Admitted(old(Abstract()), maxSize, ip, limit, now)
    {
      hide Without;
      if ip !in tracker {
        if |tracker| >= maxSize {
          EvictOldest();
        }
        lru := lru + [ip];
        tracker := tracker[ip := Entry(limit as real, now)];
      } else {
        TouchLru(ip);
      }
    }

    /** Whether the request overdraws the bucket of its address. */
    method CheckConnFlood(ip: string, limit: nat, now: int) returns (flagged: bool)
      requires Valid()
      modifies this
      ensures Valid()
      ensures Abstract() == Checked(old(Abstract()), maxSize, perSec / 1000.0, ip, limit, now)
      ensures flagged <==> tracker[ip].tokens < 0.0
    {
      hide Agree, Without, Admitted;
      CheckedAgrees(Abstract(), maxSize, perSec / 1000.0, ip, limit, now);
      AdmittedIn(Abstract(), maxSize, ip, limit, now);
      Admit(ip, limit, now);
      var e := tracker[ip];
      var tokens, lastRefill := e.tokens, e.lastRefill;
      var refillPerMs := perSec / 1000.0;
      var elapsed := now - lastRefill;
      if elapsed > 0 {
        tokens := tokens + elapsed as real * refillPerMs;
        if tokens > limit as real {
          tokens := limit as real;
        }
        lastRefill := now;
      }
      tokens := tokens - 1.0;
      assert Entry(tokens, lastRefill) == Charged(e, limit, refillPerMs, now);
      tracker := tracker[ip := Entry(tokens, lastRefill)];
      return tokens < 0.0;
    }

    /** First phase of the sweep: a chunk of expired keys in whatever order the map yields them. */
    method CollectExpired(now: int) returns (toDelete: seq<string>)
      requires Valid()
      ensures forall k :: k in toDelete ==> k in tracker && now - tracker[k].lastRefill > windowMs
      ensures Distinct(toDelete)
      ensures |toDelete| <= gcChunk
      ensures |toDelete| < gcChunk ==> forall k :: k in tracker && now - tracker[k].lastRefill > windowMs ==> k in toDelete
    {
      toDelete := [];
      var rest := tracker.Keys;
      while rest != {}
        invariant rest <= tracker.Keys
        invariant forall k :: k in toDelete ==> k in tracker && now - tracker[k].lastRefill > windowMs && k !in rest
        invariant Distinct(toDelete)
        invariant |toDelete| < gcChunk
        invariant forall k :: k in tracker && now - tracker[k].lastRefill > windowMs && k !in rest ==> k in toDelete
        decreases rest
      {
        var ip :| ip in rest;
        rest := rest - {ip};
        if tracker[ip].lastRefill < now - windowMs {
          toDelete := toDelete + [ip];
          if |toDelete| >= gcChunk {
            break;
          }
        }
      }
    }

    /** Second phase, under another lock: the keys go whatever happened to them in between. */
    method DeleteCollected(toDelete: seq<string>)
      requires Valid()
      modifies this
      ensures Valid() && Abstract() == DroppedAll(old(Abstract()), toDelete)
    {
      ghost var before := Abstract();
      assert toDelete[0..] == toDelete;
      for i := 0 to |toDelete|
        invariant Agree(Abstract()) && |lru| <= |before.lru|
        invariant DroppedAll(Abstract(), toDelete[i..]) == DroppedAll(before, toDelete)
      {
        var ip := toDelete[i];
        assert toDelete[i..][0] == ip && toDelete[i..][1..] == toDelete[i + 1..];
        DroppedAgrees(Abstract(), ip);
        if ip in tracker {
          lru := Without(lru, ip);
          tracker := tracker - {ip};
        }
      }
      SameSize(Abstract());
      SameSize(before);
    }
  }
}
