/**
 The sliding-window limiter. Every method of the store is one critical section; the clock value it
 uses was read before the lock was taken and is passed in.
 */
module RateLimiter {

  /** The request timestamps and block deadlines of the store. */
  type Requests = map<string, seq<int>>

  function QueueOf(r: Requests, key: string): seq<int> {
    if key in r then r[key] else []
  }

  /** Removes expired entries from the front, up to the first that is live. */
  function PopExpired(dq: seq<int>, cutoff: int): seq<int> {
    if dq != [] && dq[0] <= cutoff then PopExpired(dq[1..], cutoff) else dq
  }

  function Pushed(r: Requests, key: string, now: int, windowMs: int): Requests {
    r[key := PopExpired(QueueOf(r, key), now - windowMs) + [now]]
  }

  function Cleaned(r: Requests, cutoff: int): Requests {
    map k | k in r && PopExpired(r[k], cutoff) != [] :: PopExpired(r[k], cutoff)
  }

  function Unexpired(b: map<string, int>, now: int): map<string, int> {
    map k | k in b && now < b[k] :: b[k]
  }

  method PopFront(dq0: seq<int>, cutoff: int) returns (dq: seq<int>)
    ensures dq == PopExpired(dq0, cutoff)
  {
    dq := dq0;
    while dq != [] && dq[0] <= cutoff
      invariant PopExpired(dq, cutoff) == PopExpired(dq0, cutoff)
      decreases |dq|
    {
      dq := dq[1..];
    }
  }

  class MemoryStore {
    const windowMs: int
    const maxKeys: nat
    var requests: Requests
    var blocked: map<string, int>

    constructor (windowMs: int, maxKeys: nat)
      ensures this.windowMs == windowMs && this.maxKeys == maxKeys && requests == map[] && blocked == map[]
    {
      this.windowMs := windowMs;
      this.maxKeys := maxKeys;
      requests, blocked := map[], map[];
    }

    /** Below capacity nothing is evicted; at capacity some key loses its history, and some its block. */
    method Increment(key: string, now: int) returns (count: nat, ghost lost: set<string>, ghost freed: set<string>)
      modifies this
      ensures key in requests && count == |requests[key]| > 0
      ensures requests == Pushed(old(requests) - lost, key, now, windowMs) && blocked == old(blocked) - freed
      ensures if |old(requests)| < maxKeys then lost == {} && freed == {} else |lost| <= 1 && |freed| <= 1
    {
      var cutoff := now - windowMs;
      lost, freed := {}, {};
      if |requests| >= maxKeys {
        lost, freed := EvictOldest();
      }
      assert requests == old(requests) - lost && blocked == old(blocked) - freed;
      var dq := PopFront(QueueOf(requests, key), cutoff);
      requests := requests[key := dq + [now]];
      count := |requests[key]|;
    }

    method EvictOldest() returns (ghost lost: set<string>, ghost freed: set<string>)
      modifies this
      ensures |lost| <= 1 && |freed| <= 1 && lost <= old(requests).Keys && freed <= old(blocked).Keys
      ensures lost == {} <==> old(requests) == map[]
      ensures freed == {} <==> old(blocked) == map[]
      ensures requests == old(requests) - lost && blocked == old(blocked) - freed
    {
      lost, freed := {}, {};
      if requests != map[] {
        assert requests.Keys != {};
        var k :| k in requests.Keys;
        lost := {k};
        requests := requests - {k};
      }
      if blocked != map[] {
        assert blocked.Keys != {};
        var k :| k in blocked.Keys;
        freed := {k};
        blocked := blocked - {k};
      }
    }

    method Block(key: string, now: int, ms: int)
      modifies this`blocked
      ensures blocked == old(blocked)[key := now + ms]
    {
      blocked := blocked[key := now + ms];
    }

    /** The deadline of a live block, else 0; an expired entry is erased. */
    method IsBlocked(key: string, now: int) returns (until: int)
      modifies this`blocked
      ensures until == if key in old(blocked) && now < old(blocked)[key] then old(blocked)[key] else 0
      ensures blocked == if key in old(blocked) && old(blocked)[key] <= now then old(blocked) - {key} else old(blocked)
    {
      if key !in blocked {
        return 0;
      }
      if now < blocked[key] {
        return blocked[key];
      }
      blocked := blocked - {key};
      return 0;
    }

    method Unblock(key: string)
      modifies this
      ensures requests == old(requests) - {key} && blocked == old(blocked) - {key}
    {
      blocked := blocked - {key};
      requests := requests - {key};
    }

    /** Two clock readings, one for the window and a later one for the blocks. */
    method Cleanup(first: int, now: int)
      modifies this
      ensures requests == Cleaned(old(requests), first - windowMs)
      ensures blocked == Unexpired(old(blocked), now)
    {
      hide Cleaned, Unexpired;
      CleanRequests(first - windowMs);
      CleanBlocks(now);
    }

    method CleanRequests(cutoff: int)
      modifies this`requests
      ensures requests == Cleaned(old(requests), cutoff)
    {
      hide PopExpired;
      var todo := requests.Keys;
      while todo != {}
        invariant todo <= requests.Keys <= old(requests).Keys
        invariant forall k :: k in requests ==>
                    requests[k] == if k in todo then old(requests)[k] else PopExpired(old(requests)[k], cutoff)
        invariant forall k :: k in old(requests) && k !in todo ==> (k in requests <==> PopExpired(old(requests)[k], cutoff) != [])
      {
        var k :| k in todo;
        var dq := PopFront(requests[k], cutoff);
        if dq == [] {
          requests := requests - {k};
        } else {
          requests := requests[k := dq];
        }
        todo := todo - {k};
      }
    }

    method CleanBlocks(now: int)
      modifies this`blocked
      ensures blocked == Unexpired(old(blocked), now)
    {
      var todo := blocked.Keys;
      while todo != {}
        invariant todo <= blocked.Keys <= old(blocked).Keys
        invariant forall k :: k in blocked ==> blocked[k] == old(blocked)[k]
        invariant forall k :: k in old(blocked) && k !in todo ==> (k in blocked <==> now < old(blocked)[k])
      {
        var k :| k in todo;
        if now >= blocked[k] {
          blocked := blocked - {k};
        }
        todo := todo - {k};
      }
    }
  }

  datatype CheckResult = CheckResult(limited: bool, ip: string, count: nat, maxReqs: nat, remaining: int, retryAfterMs: int)

  class Limiter {
    const max: nat
    const blockDuration: int
    const skipPaths: seq<string>
    const store: MemoryStore

    constructor (max: nat, blockDuration: int, skipPaths: seq<string>, store: MemoryStore)
      ensures this.max == max && this.blockDuration == blockDuration && this.skipPaths == skipPaths && this.store == store
    {
      this.max, this.blockDuration, this.skipPaths, this.store := max, blockDuration, skipPaths, store;
    }

    predicate Skipped(path: string) {
      exists i :: 0 <= i < |skipPaths| && skipPaths[i] <= path
    }

    method SkipsPath(path: string) returns (r: bool)
      ensures r == Skipped(path) == exists i :: 0 <= i < |skipPaths| && |skipPaths[i]| <= |path| && path[..|skipPaths[i]|] == skipPaths[i]
    {
      for i := 0 to |skipPaths|
        invariant forall j :: 0 <= j < i ==> !(skipPaths[j] <= path)
      {
        if skipPaths[i] <= path {
          return true;
        }
      }
      return false;
    }

    /**
     One request with the clock readings of its four steps and no other thread in between. A request
     that is neither skipped nor blocked enters the window; it is admitted exactly when the window
     then holds at most `max` requests, and a refused one starts a block. At capacity some key's
     history, `lost`, and some block, `freed`, go first.
     */
    method Check(ip: string, path: string, now: int, tBlocked: int, tIncrement: int, tBlock: int)
      returns (res: CheckResult, ghost lost: set<string>, ghost freed: set<string>)
      modifies store
      ensures if |old(store.requests)| < store.maxKeys then lost == {} && freed == {} else |lost| <= 1 && |freed| <= 1
      ensures res.ip == ip && res.maxReqs == max
      ensures Skipped(path) ==> res == CheckResult(false, ip, 0, max, 0, 0) && store.requests == old(store.requests) && store.blocked == old(store.blocked)
      ensures !Skipped(path) ==>
        var before := old(store.blocked);
        var kept := (if ip in before && before[ip] <= tBlocked then before - {ip} else before) - freed;
        if ip in before && before[ip] > tBlocked && before[ip] > 0 then
          res == CheckResult(true, ip, max, max, 0, before[ip] - now) && store.requests == old(store.requests) && store.blocked == before
        else
          && store.requests == Pushed(old(store.requests) - lost, ip, tIncrement, store.windowMs)
          && var count := |store.requests[ip]|;
          && (count > max ==> res == CheckResult(true, ip, count, max, 0, blockDuration) && store.blocked == kept[ip := tBlock + blockDuration])
          && (count <= max ==> res == CheckResult(false, ip, count, max, max - count, 0) && store.blocked == kept)
    {
      hide Skipped, Pushed;
      res, lost, freed := CheckResult(false, ip, 0, max, 0, 0), {}, {};
      var skips := SkipsPath(path);
      if skips {
        return;
      }
      var blockUntil := store.IsBlocked(ip, tBlocked);
      if blockUntil > 0 {
        return CheckResult(true, ip, max, max, 0, blockUntil - now), {}, {};
      }
      res, lost, freed := CountRequest(ip, tIncrement, tBlock);
    }

    /** The second half of a check: the request is counted, and refused if there are too many. */
    method CountRequest(ip: string, tIncrement: int, tBlock: int)
      returns (res: CheckResult, ghost lost: set<string>, ghost freed: set<string>)
      modifies store
      ensures if |old(store.requests)| < store.maxKeys then lost == {} && freed == {} else |lost| <= 1 && |freed| <= 1
      ensures store.requests == Pushed(old(store.requests) - lost, ip, tIncrement, store.windowMs) && ip in store.requests
      ensures var count, kept := |store.requests[ip]|, old(store.blocked) - freed;
        if count > max then
          res == CheckResult(true, ip, count, max, 0, blockDuration) && store.blocked == kept[ip := tBlock + blockDuration]
        else
          res == CheckResult(false, ip, count, max, max - count, 0) && store.blocked == kept
    {
      hide Pushed;
      var count;
      count, lost, freed := store.Increment(ip, tIncrement);
      if count > max {
        store.Block(ip, tBlock, blockDuration);
        res := CheckResult(true, ip, count, max, 0, blockDuration);
      } else {
        res := CheckResult(false, ip, count, max, max - count, 0);
      }
    }
  }
}
