/** Failed log-ins per address: sliding window, progressive blocks, and what a block proves. */
module BruteForce {
  import opened Int64
  import opened Numerals
  import opened Sequences

  datatype Options = Options(windowMs: int, maxAttempts: nat, blockMs: int, maxBlockMs: int, progressive: bool, maxState: nat)

  datatype Entry = Entry(attempts: seq<int>, blockCount: nat, blockUntil: int)

  const FRESH := Entry([], 0, 0)

  /** The times less than `window` before `now`. */
  function Recent(ts: seq<int>, now: int, window: int): seq<int> {
    if ts == [] then [] else (if now - ts[0] >= window then [] else [ts[0]]) + Recent(ts[1..], now, window)
  }

  /** Length of the `n`-th block before the cap. */
  function Uncapped(o: Options, n: nat): int
    requires n >= 1
  {
    o.blockMs * if o.progressive then Power(2, n - 1) else 1
  }

  function Duration(wide: OutOfRange, o: Options, n: nat): int
    requires n >= 1
  {
    Min(Cast(wide, Uncapped(o, n)), o.maxBlockMs)
  }

  function Failed(wide: OutOfRange, o: Options, e: Entry, now: int): Entry {
    var att := Recent(e.attempts, now, o.windowMs) + [now];
    if |att| >= o.maxAttempts then Entry(att, e.blockCount + 1, now + Duration(wide, o, e.blockCount + 1))
    else e.(attempts := att)
  }

  function Find(m: map<string, Entry>, ip: string): Entry {
    if ip in m then m[ip] else FRESH
  }

  lemma {:induction false} RecentConcat(a: seq<int>, b: seq<int>, now: int, window: int)
    ensures Recent(a + b, now, window) == Recent(a, now, window) + Recent(b, now, window)
  {
    if a == [] {
      assert a + b == b;
    } else {
      assert (a + b)[1..] == a[1..] + b;
      RecentConcat(a[1..], b, now, window);
    }
  }

  method DropOld(ts: seq<int>, now: int, window: int) returns (r: seq<int>)
    ensures r == Recent(ts, now, window)
  {
    r := [];
    for i := 0 to |ts|
      invariant r == Recent(ts[..i], now, window)
    {
      RecentConcat(ts[..i], [ts[i]], now, window);
      assert ts[..i + 1] == ts[..i] + [ts[i]];
      assert [ts[i]][1..] == [];
      if now - ts[i] < window {
        r := r + [ts[i]];
      }
    }
    assert ts[..|ts|] == ts;
  }

  lemma EmptyOrNot(m: map<string, Entry>)
    ensures m == map[] || exists k :: k in m
  {
    if m.Keys == {} {
      assert m == map[];
    }
  }

  class Guard {
    const opts: Options
    const wide: OutOfRange
    var ipState: map<string, Entry>

    constructor (opts: Options, wide: OutOfRange)
      ensures this.opts == opts && this.wide == wide && ipState == map[]
    {
      this.opts, this.wide := opts, wide;
      ipState := map[];
    }

    /** Some entry goes; which one is up to the map. */
    method EvictOldest()
      modifies this
      ensures ipState == old(ipState) || exists k :: k in old(ipState) && ipState == old(ipState) - {k}
      ensures old(ipState) != map[] ==> ipState != old(ipState)
    {
      if ipState == map[] {
        return;
      }
      EmptyOrNot(ipState);
      var k :| k in ipState;
      ipState := ipState - {k};
      assert k in old(ipState) && k !in ipState;
    }

    method RecordResponse(ip: string, sensitive: bool, failed: bool, now: int)
      modifies this
      ensures !sensitive ==> ipState == old(ipState)
      ensures sensitive && !failed ==> ipState == old(ipState) - {ip}
      ensures sensitive && failed ==> ip in ipState && exists room: map<string, Entry> {:trigger Find(room, ip)} ::
        (room == old(ipState) || exists k :: k in old(ipState) && room == old(ipState) - {k}) &&
        (|old(ipState)| < opts.maxState ==> room == old(ipState)) &&
        ipState == room[ip := Failed(wide, opts, Find(room, ip), now)]
    {
      if !sensitive {
        return;
      }
      if !failed {
        ipState := ipState - {ip};
        return;
      }
      if |ipState| >= opts.maxState {
        EvictOldest();
      }
      ghost var room := ipState;
      var e := Find(ipState, ip);
      var att := DropOld(e.attempts, now, opts.windowMs);
      att := att + [now];
      if |att| >= opts.maxAttempts {
        var blockCount := e.blockCount + 1;
        var mult := if opts.progressive then Power(2, blockCount - 1) else 1;
        var duration := Min(Cast(wide, opts.blockMs * mult), opts.maxBlockMs);
        ipState := ipState[ip := Entry(att, blockCount, now + duration)];
      } else {
        ipState := ipState[ip := e.(attempts := att)];
      }
      assert ipState == room[ip := Failed(wide, opts, Find(room, ip), now)];
    }

    method Reset(ip: string)
      modifies this
      ensures ipState == old(ipState) - {ip}
    {
      ipState := ipState - {ip};
    }

    /** Remaining time of a block in force. */
    method Check(ip: string, sensitive: bool, now: int) returns (blocked: bool, retryAfter: int, attempts: nat)
      ensures blocked <==> sensitive && Find(ipState, ip).blockUntil > 0 && now < Find(ipState, ip).blockUntil
      ensures blocked ==> now + retryAfter == Find(ipState, ip).blockUntil && attempts == |Find(ipState, ip).attempts|
      ensures !blocked ==> retryAfter == 0 && attempts == 0
    {
      blocked, retryAfter, attempts := false, 0, 0;
      if !sensitive || ip !in ipState {
        return;
      }
      var e := ipState[ip];
      if e.blockUntil > 0 && now < e.blockUntil {
        return true, e.blockUntil - now, |e.attempts|;
      }
    }
  }

  // ---------------------------------------------------------------- runs of one address

  /** Responses to one address; a success or a reset forgets it. */
  datatype Event = Failure(now: int) | Success

  function After(wide: OutOfRange, o: Options, evs: seq<Event>): Entry
    decreases |evs|
  {
    if evs == [] then FRESH
    else
      match evs[|evs| - 1]
      case Success => FRESH
      case Failure(now) => Failed(wide, o, After(wide, o, evs[..|evs| - 1]), now)
  }

  /** Times of the failures since the last success. */
  function Failures(evs: seq<Event>): seq<int>
    decreases |evs|
  {
    if evs == [] then []
    else
      match evs[|evs| - 1]
      case Success => []
      case Failure(now) => Failures(evs[..|evs| - 1]) + [now]
  }

  /** The last failure and those less than the window before it. */
  function Window(o: Options, fs: seq<int>): seq<int> {
    if fs == [] then [] else Recent(fs[..|fs| - 1], fs[|fs| - 1], o.windowMs) + [fs[|fs| - 1]]
  }

  predicate Triggers(o: Options, fs: seq<int>) {
    fs != [] && |Window(o, fs)| >= o.maxAttempts
  }

  /** How many of the failures started a block. */
  function Blocks(o: Options, fs: seq<int>): nat
    decreases |fs|
  {
    if fs == [] then 0 else Blocks(o, fs[..|fs| - 1]) + if Triggers(o, fs) then 1 else 0
  }

  /** When the block begun last ends. */
  function Until(wide: OutOfRange, o: Options, fs: seq<int>): int
    decreases |fs|
  {
    if fs == [] then 0
    else if Triggers(o, fs) then fs[|fs| - 1] + Duration(wide, o, Blocks(o, fs))
    else Until(wide, o, fs[..|fs| - 1])
  }

  lemma {:induction false} RecentTwice(ts: seq<int>, s: int, now: int, window: int)
    requires s <= now
    ensures Recent(Recent(ts, s, window), now, window) == Recent(ts, now, window)
  {
    if ts != [] {
      RecentTwice(ts[1..], s, now, window);
      var first := if s - ts[0] >= window then [] else [ts[0]];
      RecentConcat(first, Recent(ts[1..], s, window), now, window);
      if first == [ts[0]] {
        assert first[1..] == [];
      }
    }
  }

  /** One more failure moves the window. */
  lemma WindowMoves(o: Options, fs: seq<int>, now: int)
    requires Ascending(fs + [now])
    ensures Recent(Window(o, fs), now, o.windowMs) + [now] == Window(o, fs + [now])
  {
    assert (fs + [now])[..|fs|] == fs;
    if fs != [] {
      var before, t := fs[..|fs| - 1], fs[|fs| - 1];
      assert (fs + [now])[|fs| - 1] == t && (fs + [now])[|fs|] == now;
      RecentConcat(Recent(before, t, o.windowMs), [t], now, o.windowMs);
      RecentTwice(before, t, now, o.windowMs);
      RecentConcat(before, [t], now, o.windowMs);
      assert before + [t] == fs;
    }
  }

  /** With a clock that never steps back, an entry is a function of the failures since the last success. */
  lemma {:induction false} EntryExact(wide: OutOfRange, o: Options, evs: seq<Event>)
    requires Ascending(Failures(evs))
    ensures var fs := Failures(evs);
      After(wide, o, evs) == Entry(Window(o, fs), Blocks(o, fs), Until(wide, o, fs))
    decreases |evs|
  {
    hide Recent, Window, Duration, Ascending;
    if evs == [] {
      NoWindow(o);
    } else {
      match evs[|evs| - 1] {
        case Success => NoWindow(o);
        case Failure(now) =>
          var before := evs[..|evs| - 1];
          var gs, fs := Failures(before), Failures(evs);
          PrefixAscends(gs, now);
          assert fs[..|fs| - 1] == gs;
          EntryExact(wide, o, before);
          WindowMoves(o, gs, now);
      }
    }
  }

  lemma PrefixAscends(ts: seq<int>, t: int)
    requires Ascending(ts + [t])
    ensures Ascending(ts)
  {
    assert forall i :: 0 <= i < |ts| ==> ts[i] == (ts + [t])[i];
  }

  lemma NoWindow(o: Options)
    ensures Window(o, []) == []
  {
  }

  /** A block in force means some failure since the last success had `maxAttempts` failures in its window, itself included. */
  lemma {:induction false} BlockNeedsFailures(wide: OutOfRange, o: Options, fs: seq<int>)
    requires Until(wide, o, fs) > 0
    ensures exists k :: 0 < k <= |fs| && Triggers(o, fs[..k])
    decreases |fs|
  {
    hide Triggers, Duration, Blocks;
    if Triggers(o, fs) {
      assert fs[..|fs|] == fs;
    } else {
      var before := fs[..|fs| - 1];
      BlockNeedsFailures(wide, o, before);
      var k :| 0 < k <= |before| && Triggers(o, before[..k]);
      assert before[..k] == fs[..k];
    }
  }

  lemma {:induction false} RecentHolds(ts: seq<int>, now: int, window: int)
    ensures multiset(Recent(ts, now, window)) <= multiset(ts)
    ensures forall t :: t in Recent(ts, now, window) <==> t in ts && now - t < window
  {
    if ts != [] {
      RecentHolds(ts[1..], now, window);
      assert ts == [ts[0]] + ts[1..];
    }
  }

  /** A window holds the last failure and, of those before it, the ones less than `windowMs` old. */
  lemma WindowHolds(o: Options, fs: seq<int>)
    requires fs != []
    ensures multiset(Window(o, fs)) <= multiset(fs)
    ensures forall t :: t in Window(o, fs) <==>
      t == fs[|fs| - 1] || (t in fs[..|fs| - 1] && fs[|fs| - 1] - t < o.windowMs)
  {
    var before, t := fs[..|fs| - 1], fs[|fs| - 1];
    RecentHolds(before, t, o.windowMs);
    assert fs == before + [t];
  }

  /** The guarantee over runs: a blocked address failed that often within one window since its last success. */
  lemma BlockedForAReason(wide: OutOfRange, o: Options, evs: seq<Event>)
    requires Ascending(Failures(evs)) && After(wide, o, evs).blockUntil > 0
    ensures exists k :: 0 < k <= |Failures(evs)| && |Window(o, Failures(evs)[..k])| >= o.maxAttempts
  {
    hide Recent, Window;
    EntryExact(wide, o, evs);
    BlockNeedsFailures(wide, o, Failures(evs));
    var k :| 0 < k <= |Failures(evs)| && Triggers(o, Failures(evs)[..k]);
  }

  // ---------------------------------------------------------------- lengths of blocks

  /** The length the backoff means to give the `n`-th block. */
  function Intended(o: Options, n: nat): int
    requires n >= 1
  {
    Min(Uncapped(o, n), o.maxBlockMs)
  }

  /** Uncapped lengths begin with the base, and each is twice the one before, or the same without backoff. */
  lemma Doubling(o: Options, n: nat)
    requires n >= 1
    ensures Uncapped(o, 1) == o.blockMs
    ensures Uncapped(o, n + 1) == if o.progressive then 2 * Uncapped(o, n) else Uncapped(o, n)
  {
    Twice(o.blockMs, Power(2, n - 1));
  }

  lemma Twice(b: int, x: int)
    ensures b * (2 * x) == 2 * (b * x)
  {
  }

  /** The `n`-th block has the intended length, whatever an out-of-range conversion yields, exactly while the uncapped length fits. */
  lemma LengthExactly(o: Options, n: nat)
    requires n >= 1 && o.blockMs >= 0 && Fits(o.maxBlockMs)
    ensures (forall wide: OutOfRange :: Duration(wide, o, n) == Intended(o, n)) <==> Fits(Uncapped(o, n))
  {
    if !Fits(Uncapped(o, n)) {
      UncappedNonNegative(o, n);
      var wide: OutOfRange := _ => o.maxBlockMs - 1;
      assert Duration(wide, o, n) != Intended(o, n);
    }
  }

  lemma UncappedNonNegative(o: Options, n: nat)
    requires n >= 1 && o.blockMs >= 0
    ensures 0 <= Uncapped(o, n) <= Uncapped(o, n + 1)
  {
    PowerGrows(2, n - 1, n);
    Ordered(o.blockMs, Power(2, n - 1), Power(2, n));
  }

  lemma Ordered(b: int, x: int, y: int)
    requires b >= 0 && 0 <= x <= y
    ensures 0 <= b * x <= b * y && b * 1 == b
  {
  }

  lemma Power44()
    ensures Power(2, 44) == 0x1000_0000_0000
  {
    assert Power(2, 8) == 0x100 by {
      assert Power(2, 4) == 16;
    }
    PowerSum(2, 8, 8);
    PowerSum(2, 16, 16);
    PowerSum(2, 32, 8);
    assert Power(2, 44) == 16 * Power(2, 40) by {
      assert Power(2, 42) == 4 * Power(2, 40);
    }
  }

  /** The lengths of all blocks so far fit 64 bits. */
  predicate LengthsFit(o: Options, n: nat) {
    forall k :: 1 <= k <= n ==> Fits(Uncapped(o, k))
  }

  lemma {:induction false} UntilBound(wide: OutOfRange, o: Options, fs: seq<int>, now: int)
    requires (forall i :: 0 <= i < |fs| ==> 0 <= fs[i] <= now) && now >= 0 && o.blockMs >= 0 && o.maxBlockMs >= 0
    requires LengthsFit(o, Blocks(o, fs))
    ensures 0 <= Until(wide, o, fs) <= now + Intended(o, Blocks(o, fs) + 1)
    decreases |fs|
  {
    hide Triggers, Uncapped;
    UncappedNonNegative(o, Blocks(o, fs) + 1);
    if fs != [] {
      if Triggers(o, fs) {
        UncappedNonNegative(o, Blocks(o, fs));
      } else {
        UntilBound(wide, o, fs[..|fs| - 1], now);
      }
    }
  }

  lemma OneMoreTime(wide: OutOfRange, o: Options, fs: seq<int>, now: int)
    ensures Blocks(o, fs + [now]) == Blocks(o, fs) + if Triggers(o, fs + [now]) then 1 else 0
    ensures Until(wide, o, fs + [now])
         == if Triggers(o, fs + [now]) then now + Duration(wide, o, Blocks(o, fs) + 1) else Until(wide, o, fs)
  {
    hide Triggers, Duration;
    assert (fs + [now])[..|fs|] == fs;
  }

  lemma OneMoreFailure(evs: seq<Event>, now: int)
    ensures Failures(evs + [Failure(now)]) == Failures(evs) + [now]
  {
    assert (evs + [Failure(now)])[..|evs|] == evs;
  }

  /** Deadlines before and after one more failure. */
  lemma OneMore(wide: OutOfRange, o: Options, evs: seq<Event>, now: int)
    requires Ascending(Failures(evs) + [now])
    ensures var fs := Failures(evs);
      && After(wide, o, evs).blockUntil == Until(wide, o, fs)
      && After(wide, o, evs + [Failure(now)]).blockUntil
         == if Triggers(o, fs + [now]) then now + Duration(wide, o, Blocks(o, fs) + 1) else Until(wide, o, fs)
  {
    hide Duration, Triggers, Window, Failures, Blocks, Until, After, Ascending;
    PrefixAscends(Failures(evs), now);
    OneMoreFailure(evs, now);
    OneMoreTime(wide, o, Failures(evs), now);
    EntryExact(wide, o, evs);
    EntryExact(wide, o, evs + [Failure(now)]);
  }

  /** Clock readings are non-negative, fit 64 bits, and never step back. */
  predicate Clocked(fs: seq<int>) {
    Ascending(fs) && forall i :: 0 <= i < |fs| ==> 0 <= fs[i] < LIMIT
  }

  /**
   When the lengths so far fit, a further failure leaves or moves on the deadline, whatever an
   out-of-range conversion yields, if and only if it starts no block or the length of that block fits.
   */
  lemma NeverMovesBackExactly(o: Options, evs: seq<Event>, now: int)
    requires Clocked(Failures(evs) + [now]) && o.blockMs >= 0 && o.maxBlockMs >= 0
    requires LengthsFit(o, Blocks(o, Failures(evs)))
    ensures (forall wide: OutOfRange :: After(wide, o, evs + [Failure(now)]).blockUntil >= After(wide, o, evs).blockUntil)
       <==> !Triggers(o, Failures(evs) + [now]) || Fits(Uncapped(o, Blocks(o, Failures(evs)) + 1))
  {
    hide Triggers, After, Until, Blocks, Uncapped, LengthsFit;
    var fs := Failures(evs);
    assert forall i :: 0 <= i < |fs| ==> fs[i] == (fs + [now])[i];
    assert (fs + [now])[|fs|] == now;
    var n := Blocks(o, fs) + 1;
    UncappedNonNegative(o, n);
    if !Triggers(o, fs + [now]) || Fits(Uncapped(o, n)) {
      forall wide: OutOfRange ensures After(wide, o, evs + [Failure(now)]).blockUntil >= After(wide, o, evs).blockUntil {
        OneMore(wide, o, evs, now);
        UntilBound(wide, o, fs, now);
      }
    } else {
      var wide: OutOfRange := _ => -LIMIT;
      OneMore(wide, o, evs, now);
      UntilBound(wide, o, fs, now);
      assert After(wide, o, evs + [Failure(now)]).blockUntil < After(wide, o, evs).blockUntil;
    }
  }

  // ---------------------------------------------------------------- a run that overflows

  lemma {:induction false} AllRecent(ts: seq<int>, now: int, window: int)
    requires forall i :: 0 <= i < |ts| ==> now - ts[i] < window
    ensures Recent(ts, now, window) == ts
  {
    if ts != [] {
      AllRecent(ts[1..], now, window);
    }
  }

  function Burst(n: nat, now: int): seq<Event> {
    seq(n, _ => Failure(now))
  }

  lemma {:induction false} BurstFailures(n: nat, now: int)
    ensures Failures(Burst(n, now)) == seq(n, _ => now)
  {
    if n > 0 {
      assert Burst(n, now)[..n - 1] == Burst(n - 1, now);
      BurstFailures(n - 1, now);
    } else {
      assert Burst(0, now) == [];
    }
  }

  /** Of failures at one instant, every one from the `maxAttempts`-th on starts a block. */
  lemma {:induction false} BurstBlocks(o: Options, n: nat, now: int)
    requires o.windowMs > 0 && o.maxAttempts >= 1
    ensures var fs := seq(n, _ => now);
      Blocks(o, fs) == (if n < o.maxAttempts then 0 else n - o.maxAttempts + 1) && (Triggers(o, fs) <==> n >= o.maxAttempts)
  {
    if n > 0 {
      var fs: seq<int> := seq(n, _ => now);
      assert fs[..n - 1] == seq(n - 1, _ => now);
      BurstBlocks(o, n - 1, now);
      AllRecent(fs[..n - 1], now, o.windowMs);
    } else {
      assert seq(0, _ => now) == [];
    }
  }

  lemma BurstUntil(wide: OutOfRange, o: Options, n: nat, now: int)
    requires o.windowMs > 0 && n >= o.maxAttempts >= 1
    ensures Until(wide, o, seq(n, _ => now)) == now + Duration(wide, o, n - o.maxAttempts + 1)
  {
    hide Triggers, Duration, Blocks;
    BurstBlocks(o, n, now);
  }

  const DEFAULTS := Options(900_000, 5, 900_000, 86_400_000, true, 50_000)

  lemma DefaultLengths(wide: OutOfRange)
    requires wide(900_000 * Power(2, 44)) == -LIMIT
    ensures Duration(wide, DEFAULTS, 44) == 86_400_000 && Duration(wide, DEFAULTS, 45) == -LIMIT
  {
    Power44();
    assert Power(2, 44) == 2 * Power(2, 43);
  }

  /**
   With the default options the 49th failure at one instant starts the 45th block, whose 15 minutes
   doubled 44 times are out of range: a conversion to the least integer takes the deadline back.
   */
  lemma BackoffMovesBack(wide: OutOfRange, now: int)
    requires wide(900_000 * Power(2, 44)) == -LIMIT
    ensures After(wide, DEFAULTS, Burst(48, now)).blockUntil == now + 86_400_000
    ensures After(wide, DEFAULTS, Burst(48, now) + [Failure(now)]).blockUntil == now - LIMIT
  {
    hide After, Power, Duration, Until, Blocks, Triggers, Failures;
    var o := DEFAULTS;
    BurstFailures(48, now);
    BurstBlocks(o, 48, now);
    BurstBlocks(o, 49, now);
    BurstUntil(wide, o, 48, now);
    assert seq(48, _ => now) + [now] == seq(49, _ => now);
    OneMore(wide, o, Burst(48, now), now);
    DefaultLengths(wide);
  }
}
