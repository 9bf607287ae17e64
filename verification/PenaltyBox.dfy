/** Bans that grow with each violation. */
module PenaltyBox {
  import opened Int64
  import opened Numerals

  datatype Options = Options(threshold: nat, baseBanMs: int, maxBanMs: int, multiplier: real)

  datatype Entry = Entry(violations: nat, lastBanMs: int, bannedUntil: int)

  const FRESH := Entry(0, 0, 0)

  function Capped(o: Options, ban: int): int {
    if ban > o.maxBanMs then o.maxBanMs else ban
  }

  /** A length times the multiplier, cut to an integer. */
  function Product(o: Options, last: int): int {
    Trunc(Times(last as real, o.multiplier))
  }

  function NextBan(wide: OutOfRange, o: Options, last: int): int {
    Capped(o, if last == 0 then o.baseBanMs else Cast(wide, Product(o, last)))
  }

  function Violated(wide: OutOfRange, o: Options, e: Entry, now: int): Entry {
    if e.bannedUntil > now then e
    else if e.violations + 1 < o.threshold then e.(violations := e.violations + 1)
    else Entry(e.violations + 1, NextBan(wide, o, e.lastBanMs), now + NextBan(wide, o, e.lastBanMs))
  }

  function Find(m: map<string, Entry>, ip: string): Entry {
    if ip in m then m[ip] else FRESH
  }

  class Box {
    const opts: Options
    const wide: OutOfRange
    const enabled: bool
    var penaltyBox: map<string, Entry>

    constructor (opts: Options, wide: OutOfRange, enabled: bool)
      ensures this.opts == opts && this.wide == wide && this.enabled == enabled && penaltyBox == map[]
    {
      this.opts, this.wide, this.enabled := opts, wide, enabled;
      penaltyBox := map[];
    }

    method RecordViolation(ip: string, now: int)
      modifies this
      ensures penaltyBox == if enabled
        then old(penaltyBox)[ip := Violated(wide, opts, Find(old(penaltyBox), ip), now)]
        else old(penaltyBox)
    {
      hide Product, Cast;
      if !enabled {
        return;
      }
      var entry := Find(penaltyBox, ip);
      penaltyBox := penaltyBox[ip := entry];
      if entry.bannedUntil > now {
        return;
      }
      entry := entry.(violations := entry.violations + 1);
      if entry.violations >= opts.threshold {
        var banMs := if entry.lastBanMs == 0 then opts.baseBanMs else Cast(wide, Product(opts, entry.lastBanMs));
        if banMs > opts.maxBanMs {
          banMs := opts.maxBanMs;
        }
        entry := entry.(lastBanMs := banMs, bannedUntil := now + banMs);
      }
      penaltyBox := penaltyBox[ip := entry];
    }

    /** Lifts a ban and keeps its history. */
    method UnbanIp(ip: string)
      modifies this
      ensures penaltyBox == if ip in old(penaltyBox) then old(penaltyBox)[ip := old(penaltyBox)[ip].(bannedUntil := 0)] else old(penaltyBox)
    {
      if ip in penaltyBox {
        penaltyBox := penaltyBox[ip := penaltyBox[ip].(bannedUntil := 0)];
      }
    }
  }

  // ---------------------------------------------------------------- runs of one address

  datatype Event = Violation(now: int) | Unban

  function After(wide: OutOfRange, o: Options, evs: seq<Event>): Entry
    decreases |evs|
  {
    if evs == [] then FRESH
    else
      var e := After(wide, o, evs[..|evs| - 1]);
      match evs[|evs| - 1]
      case Violation(now) => Violated(wide, o, e, now)
      case Unban => e.(bannedUntil := 0)
  }

  /** How many bans `count` violations outside a ban have led to. */
  function Bans(o: Options, count: nat): nat {
    if count < o.threshold then 0 else if o.threshold == 0 then count else count - o.threshold + 1
  }

  /** Length of the `n`-th ban by the recurrence. */
  function Ban(wide: OutOfRange, o: Options, n: nat): int {
    if n == 0 then 0 else NextBan(wide, o, Ban(wide, o, n - 1))
  }

  /** After any violations and liftings, the latest length is the recurrence at the number of bans. */
  lemma {:induction false} BanLength(wide: OutOfRange, o: Options, evs: seq<Event>)
    ensures var e := After(wide, o, evs); e.lastBanMs == Ban(wide, o, Bans(o, e.violations))
    decreases |evs|
  {
    hide NextBan;
    if evs != [] {
      BanLength(wide, o, evs[..|evs| - 1]);
    }
  }

  lemma Snoc(evs: seq<Event>, e: Event)
    ensures (evs + [e])[..|evs|] == evs && (evs + [e])[|evs|] == e
  {
  }

  /** Every number of bans comes about: violate again when the ban is over. */
  lemma {:induction false} Reached(wide: OutOfRange, o: Options, count: nat) returns (evs: seq<Event>)
    ensures After(wide, o, evs).violations == count
  {
    if count == 0 {
      evs := [];
    } else {
      var before := Reached(wide, o, count - 1);
      var again := Violation(After(wide, o, before).bannedUntil);
      Snoc(before, again);
      evs := before + [again];
    }
  }

  lemma BansReached(wide: OutOfRange, o: Options, n: nat) returns (evs: seq<Event>)
    ensures Bans(o, After(wide, o, evs).violations) == n
  {
    var count := if n == 0 then 0 else if o.threshold == 0 then n else o.threshold + n - 1;
    if n == 0 && o.threshold == 0 {
      evs := [];
    } else {
      evs := Reached(wide, o, count);
    }
  }

  /**
   After any run: during a ban a violation changes nothing; outside it is counted, and from the
   threshold on it sets the deadline to its time plus the length of one more ban than before. Lifting
   a ban keeps the rest.
   */
  lemma Deadline(wide: OutOfRange, o: Options, evs: seq<Event>, now: int)
    ensures After(wide, o, evs + [Unban]) == After(wide, o, evs).(bannedUntil := 0)
    ensures var e, f := After(wide, o, evs), After(wide, o, evs + [Violation(now)]);
      if now < e.bannedUntil then f == e
      else
        f.violations == e.violations + 1 &&
        if f.violations < o.threshold then Bans(o, f.violations) == 0 && f.bannedUntil == e.bannedUntil
        else
          Bans(o, f.violations) == Bans(o, e.violations) + 1 &&
          f.lastBanMs == Ban(wide, o, Bans(o, f.violations)) && f.bannedUntil == now + Ban(wide, o, Bans(o, f.violations))
  {
    hide NextBan, Ban;
    Snoc(evs, Violation(now));
    Snoc(evs, Unban);
    BanLength(wide, o, evs + [Violation(now)]);
  }

  /** Violations during a ban change nothing at all. */
  lemma {:induction false} BannedIsQuiet(wide: OutOfRange, o: Options, evs: seq<Event>, times: seq<int>)
    requires forall i :: 0 <= i < |times| ==> times[i] < After(wide, o, evs).bannedUntil
    ensures After(wide, o, evs + seq(|times|, i requires 0 <= i < |times| => Violation(times[i]))) == After(wide, o, evs)
    decreases |times|
  {
    var all := evs + seq(|times|, i requires 0 <= i < |times| => Violation(times[i]));
    if times == [] {
      assert all == evs;
    } else {
      var before := times[..|times| - 1];
      BannedIsQuiet(wide, o, evs, before);
      assert all[..|all| - 1] == evs + seq(|before|, i requires 0 <= i < |before| => Violation(before[i]));
    }
  }
}
