/** The negative cache and failure limiter in front of a key validator
    (internal/authguard/authguard.go:76-215). Each critical section is one method, so any
    interleaving of concurrent validations is a sequence of these calls. Times are in milliseconds. */
module AuthGuard {
  import opened Common

  const WINDOW := 60_000

  /** What the store says of a key, for good; a lookup may also find the store unavailable. */
  datatype Verdict = Good(identity: string) | Bad(error: string)

  datatype Answer = Accepted(identity: string) | Denied(error: string) | Unavailable | TooManyAttempts

  function Settled(v: Verdict): Answer {
    match v
    case Good(identity) => Accepted(identity)
    case Bad(error) => Denied(error)
  }

  datatype Config = Config(negativeTtl: int, negativeMax: int, failuresPerMinute: int, trackedIps: int)

  /** New: zero or negative settings take the defaults; a negative failure budget turns the
      limiter off. */
  function Defaults(c: Config): (d: Config)
    ensures d.negativeTtl > 0 && d.negativeMax > 0 && d.trackedIps > 0 && d.failuresPerMinute != 0
  {
    Config(if c.negativeTtl <= 0 then 30_000 else c.negativeTtl, if c.negativeMax <= 0 then 10_000 else c.negativeMax,
           if c.failuresPerMinute == 0 then 60 else c.failuresPerMinute,
           if c.trackedIps <= 0 then 10_000 else c.trackedIps)
  }

  datatype NegEntry = NegEntry(error: string, expires: int)

  datatype IpEntry = IpEntry(start: int, fails: nat)

  datatype Failure = Failure(ip: string, at: int)

  /** How many of these failures are counted against ip. */
  function Counted(log: seq<Failure>, ip: string): nat {
    if log == [] then 0 else Counted(log[..|log| - 1], ip) + if log[|log| - 1].ip == ip then 1 else 0
  }

  /** The entry counts exactly the failures logged against ip since its window opened at log index
      `at`: the first of them began the window, and all are within its length of that. */
  ghost predicate CountsSince(e: IpEntry, log: seq<Failure>, ip: string, at: nat) {
    && at < |log| && log[at] == Failure(ip, e.start) && e.fails == Counted(log[at..], ip)
    && forall k :: at <= k < |log| && log[k].ip == ip ==> log[k].at - e.start < WINDOW
  }

  ghost predicate Charged(ips: map<string, IpEntry>, opening: map<string, nat>, log: seq<Failure>) {
    ips.Keys == opening.Keys && forall ip :: ip in ips ==> CountsSince(ips[ip], log, ip, opening[ip])
  }

  /** The addresses with a failure. */
  ghost function Addresses(log: seq<Failure>): set<string> { set f | f in log :: f.ip }

  /** Where in the log the present window of an address opened: at a failure a minute or more after
      the one that opened the window before. */
  ghost function Opened(log: seq<Failure>, ip: string): (at: Option<nat>)
    ensures at.Some? ==> at.value < |log| && log[at.value].ip == ip
  {
    if log == [] then None
    else
      var n := |log| - 1;
      var before := Opened(log[..n], ip);
      if log[n].ip == ip && (before.None? || log[n].at - log[before.value].at >= 60_000) then Some(n) else before
  }

  /** The address has used up its budget of failures in a window that is still open. */
  ghost predicate BudgetUsed(log: seq<Failure>, ip: string, now: int, budget: int) {
    var at := Opened(log, ip);
    at.Some? && now - log[at.value].at < 60_000 && Counted(log[at.value..], ip) >= budget
  }

  /** No address was forgotten. */
  ghost predicate Complete(ips: map<string, IpEntry>, opening: map<string, nat>, log: seq<Failure>) {
    && ips.Keys == opening.Keys == Addresses(log)
    && forall ip :: ip in opening ==> Opened(log, ip) == Some(opening[ip])
  }

  lemma {:induction false} NeverOpened(log: seq<Failure>, ip: string)
    requires ip !in Addresses(log)
    ensures Opened(log, ip) == None
  {
    if log != [] {
      assert log[|log| - 1] in log && Addresses(log[..|log| - 1]) <= Addresses(log);
      NeverOpened(log[..|log| - 1], ip);
    }
  }

  lemma AddressesMore(log: seq<Failure>, f: Failure)
    ensures Addresses(log + [f]) == Addresses(log) + {f.ip}
    ensures |Addresses(log)| <= |Addresses(log + [f])|
  {
    assert f in log + [f] && forall g :: g in log + [f] <==> g in log || g == f;
    var more := Addresses(log + [f]);
    assert more == Addresses(log) + (more - Addresses(log));
  }

  lemma OpenedMore(log: seq<Failure>, f: Failure, ip: string)
    ensures Opened(log + [f], ip) ==
            (var before := Opened(log, ip);
             if f.ip == ip && (before.None? || f.at - log[before.value].at >= 60_000) then Some(|log|) else before)
  {
    assert (log + [f])[..|log|] == log;
  }

  /** With room for all addresses, the table knows what the log says. */
  lemma CompleteSays(ips: map<string, IpEntry>, opening: map<string, nat>, log: seq<Failure>, ip: string, now: int,
                     budget: int)
    requires Charged(ips, opening, log) && Complete(ips, opening, log)
    ensures BudgetUsed(log, ip, now, budget) <==> ip in ips && now - ips[ip].start < 60_000 && ips[ip].fails >= budget
  {
    if ip in ips {
      assert CountsSince(ips[ip], log, ip, opening[ip]);
    } else {
      NeverOpened(log, ip);
    }
  }

  /** One more failure of an address that is known or has room: nothing is forgotten. */
  lemma CompleteMore(ips: map<string, IpEntry>, opening: map<string, nat>, log: seq<Failure>, ip: string, now: int,
                     next: map<string, IpEntry>, since: map<string, nat>)
    requires Charged(ips, opening, log) && Complete(ips, opening, log)
    requires next.Keys == ips.Keys + {ip}
    requires since == if ip in ips && now - ips[ip].start < 60_000 then opening else opening[ip := |log|]
    ensures Complete(next, since, log + [Failure(ip, now)])
  {
    hide Counted, CountsSince, Opened, Addresses, Charged;
    AddressesMore(log, Failure(ip, now));
    assert since.Keys == next.Keys;
    forall k | k in since
      ensures Opened(log + [Failure(ip, now)], k) == Some(since[k])
    {
      OpenedNow(ips, opening, log, ip, now, k);
    }
  }

  lemma OpenedNow(ips: map<string, IpEntry>, opening: map<string, nat>, log: seq<Failure>, ip: string, now: int,
                  k: string)
    requires Charged(ips, opening, log) && Complete(ips, opening, log) && (k == ip || k in ips)
    ensures Opened(log + [Failure(ip, now)], k) ==
            if k in ips && (k != ip || now - ips[k].start < 60_000) then Some(opening[k]) else Some(|log|)
  {
    hide Counted, Addresses;
    OpenedMore(log, Failure(ip, now), k);
    if k in ips { assert CountsSince(ips[k], log, k, opening[k]); } else { NeverOpened(log, k); }
  }

  /** What a validation does once it has been let past the limiter and the cache. */
  datatype Gate = Blocked | Cached(error: string) | LookUp

  type Digest = seq<byte>

  /** Two keys that share a digest would share a cached refusal. */
  ghost predicate CollisionFree(digest: string -> Digest) {
    forall a, b {:trigger digest(a), digest(b)} :: digest(a) == digest(b) ==> a == b
  }

  class Guard {
    const cfg: Config
    const digest: string -> Digest
    const verdict: string -> Verdict
    var neg: map<Digest, NegEntry>
    var ips: map<string, IpEntry>
    var ipBlocked: nat
    var negativeHits: nat
    var storeLookups: nat
    ghost var log: seq<Failure>            // every failure counted
    ghost var opening: map<string, nat>    // where in the log the window of an address opened

    constructor (cfg: Config, digest: string -> Digest, verdict: string -> Verdict)
      ensures this.cfg.negativeTtl == if cfg.negativeTtl <= 0 then 30_000 else cfg.negativeTtl
      ensures this.cfg.negativeMax == if cfg.negativeMax <= 0 then 10_000 else cfg.negativeMax
      ensures this.cfg.failuresPerMinute == if cfg.failuresPerMinute == 0 then 60 else cfg.failuresPerMinute
      ensures this.cfg.trackedIps == if cfg.trackedIps <= 0 then 10_000 else cfg.trackedIps
      ensures ipBlocked == negativeHits == storeLookups == 0
      ensures Valid() && this.cfg == Defaults(cfg) && this.digest == digest && this.verdict == verdict && log == []
    {
      this.cfg, this.digest, this.verdict := Defaults(cfg), digest, verdict;
      neg, ips, ipBlocked, negativeHits, storeLookups, log, opening := map[], map[], 0, 0, 0, [], map[];
    }

    /** Only true refusals are remembered, the tables are bounded, and every address is charged with
        exactly the failures counted in its present window. */
    ghost predicate Valid()
      reads this
    {
      && cfg.negativeTtl > 0 && cfg.negativeMax > 0 && cfg.trackedIps > 0 && cfg.failuresPerMinute != 0
      && |neg| <= cfg.negativeMax && |ips| <= cfg.trackedIps
      && TrueRefusals(neg)
      && Charged(ips, opening, log) && (|Addresses(log)| <= cfg.trackedIps ==> Complete(ips, opening, log))
    }

    ghost predicate TrueRefusals(neg: map<Digest, NegEntry>) {
      forall k :: digest(k) in neg ==> verdict(k) == Bad(neg[digest(k)].error)
    }

    /** Failures from this address are counted. */
    predicate Limits(ip: string) { ip != "" && cfg.failuresPerMinute >= 0 }

    /** ipBlockedLocked. */
    predicate IsBlocked(ip: string, now: int)
      reads this
    {
      Limits(ip) && ip in ips && now - ips[ip].start < WINDOW && ips[ip].fails >= cfg.failuresPerMinute
    }

    ghost function Charge(before: seq<Failure>, ip: string, now: int): seq<Failure> {
      if Limits(ip) then before + [Failure(ip, now)] else before
    }

    /** recordFailLocked. */
    method RecordFail(ip: string, now: int)
      requires Valid()
      modifies this`ips, this`log, this`opening
      ensures Valid()
      ensures log == Charge(old(log), ip, now)
      ensures log == if ip != "" && cfg.failuresPerMinute >= 0 then old(log) + [Failure(ip, now)] else old(log)
      ensures if ip == "" || cfg.failuresPerMinute < 0 then ips == old(ips)
              else ip in ips && ips[ip] == (if ip in old(ips) && now - old(ips)[ip].start < 60_000
                                            then old(ips)[ip].(fails := old(ips)[ip].fails + 1) else IpEntry(now, 1))
      ensures |old(ips)| < cfg.trackedIps || ip in old(ips) ==>
        forall other :: other != ip && other in old(ips) ==> other in ips && ips[other] == old(ips)[other]
    {
      hide Charged, CountsSince, TrueRefusals, Complete, Addresses, Of, Counted, Opened;
      if !Limits(ip) { return; }
      RoomForAll(ip, now);
      var begun := ip in ips && now - ips[ip].start < WINDOW;
      if !begun {
        if ip !in ips && |ips| >= cfg.trackedIps {
          ips := map k | k in ips && now - ips[k].start < WINDOW :: ips[k];
          if |ips| >= cfg.trackedIps { ips := map[]; }
        }
      }
      StillCharged(old(ips), opening, log, ips);
      opening := Of(opening, ips);
      var entry := if begun then IpEntry(ips[ip].start, ips[ip].fails + 1) else IpEntry(now, 1);
      ghost var since := if begun then opening else opening[ip := |log|];
      if begun { ChargedAgain(ips, opening, log, ip, now); } else { ChargedFirst(ips, opening, log, ip, now); }
      if |Addresses(log + [Failure(ip, now)])| <= cfg.trackedIps {
        CompleteMore(ips, opening, log, ip, now, ips[ip := entry], since);
      }
      OneMoreKey(ips, ip, entry);
      ips, opening, log := ips[ip := entry], since, log + [Failure(ip, now)];
    }

    /** While there is room for every address, none needs to be forgotten for a new one. */
    lemma RoomForAll(ip: string, now: int)
      requires Valid()
      ensures |Addresses(log + [Failure(ip, now)])| <= cfg.trackedIps ==>
        Complete(ips, opening, log) && (ip in ips || |ips| < cfg.trackedIps)
      ensures Of(opening, ips) == opening
    {
      AddressesMore(log, Failure(ip, now));
      if |Addresses(log + [Failure(ip, now)])| <= cfg.trackedIps && ip !in ips {
        assert |ips| == |ips.Keys| && Addresses(log + [Failure(ip, now)]) == ips.Keys + {ip};
      }
    }

    lemma BlockedSays(ip: string, now: int)
      requires Valid()
      ensures IsBlocked(ip, now) <==> (&& ip != "" && cfg.failuresPerMinute >= 0 && ip in ips
                                       && now - ips[ip].start < 60_000 && ips[ip].fails >= cfg.failuresPerMinute)
      ensures |Addresses(log)| <= cfg.trackedIps && ip != "" && cfg.failuresPerMinute >= 0 ==>
        (IsBlocked(ip, now) <==> BudgetUsed(log, ip, now, cfg.failuresPerMinute))
    {
      if |Addresses(log)| <= cfg.trackedIps { CompleteSays(ips, opening, log, ip, now, cfg.failuresPerMinute); }
    }

    /** The first critical section of Validate. */
    method Begin(key: string, ip: string, now: int) returns (g: Gate)
      requires Valid()
      modifies this`neg, this`ips, this`log, this`opening, this`ipBlocked, this`negativeHits, this`storeLookups
      ensures Valid()
      ensures g == Blocked <==> old(IsBlocked(ip, now))
      ensures g == Blocked <==> (&& ip != "" && cfg.failuresPerMinute >= 0 && ip in old(ips)
                                 && now - old(ips)[ip].start < 60_000 && old(ips)[ip].fails >= cfg.failuresPerMinute)
      ensures |Addresses(old(log))| <= cfg.trackedIps && ip != "" && cfg.failuresPerMinute >= 0 ==>
        (g == Blocked <==> BudgetUsed(old(log), ip, now, cfg.failuresPerMinute))
      ensures g.Blocked? ==> neg == old(neg) && ips == old(ips) && log == old(log)
      ensures g.Cached? <==> !old(IsBlocked(ip, now)) && digest(key) in old(neg) && now < old(neg)[digest(key)].expires
      ensures g.Cached? ==> verdict(key) == Bad(g.error) && neg == old(neg) && log == Charge(old(log), ip, now)
      ensures ipBlocked == old(ipBlocked) + (if g.Blocked? then 1 else 0)
      ensures negativeHits == old(negativeHits) + (if g.Cached? then 1 else 0)
      ensures g.LookUp? ==> log == old(log) && ips == old(ips) && neg == old(neg) - {digest(key)}
      ensures g.LookUp? ==> storeLookups == old(storeLookups) + 1
      ensures !g.LookUp? ==> storeLookups == old(storeLookups)
      ensures verdict(key).Good? && !g.Blocked? ==> g.LookUp?
    {
      hide Charged, CountsSince, TrueRefusals, IsBlocked, Charge, Complete, BudgetUsed, Addresses, Opened, Counted;
      BlockedSays(ip, now);
      if IsBlocked(ip, now) {
        ipBlocked := ipBlocked + 1;
        return Blocked;
      }
      var kh := digest(key);
      Forget(neg, kh);
      if kh in neg {
        if now < neg[kh].expires {
          negativeHits := negativeHits + 1;
          var error := neg[kh].error;
          CachedIsTrue(neg, key);
          RecordFail(ip, now);
          return Cached(error);
        }
        neg := neg - {kh};
      }
      storeLookups := storeLookups + 1;
      g := LookUp;
    }

    /** The second critical section, after a lookup that came back with a refusal. */
    method Refused(key: string, ip: string, now: int)
      requires Valid() && CollisionFree(digest) && verdict(key).Bad?
      modifies this`neg, this`ips, this`log, this`opening
      ensures Valid()
      ensures digest(key) in neg && neg[digest(key)] == NegEntry(verdict(key).error, now + cfg.negativeTtl)
      ensures log == Charge(old(log), ip, now)
      ensures |old(neg)| < cfg.negativeMax ==> neg == old(neg)[digest(key) := neg[digest(key)]]
    {
      hide Charged, CountsSince;
      var kh := digest(key);
      if |neg| >= cfg.negativeMax { EvictNeg(now); }
      OneMoreKey(neg, kh, NegEntry(verdict(key).error, now + cfg.negativeTtl));
      neg := neg[kh := NegEntry(verdict(key).error, now + cfg.negativeTtl)];
      assert forall k :: digest(k) == kh ==> k == key;
      RecordFail(ip, now);
    }

    /** evictNegLocked: the expired entries, and half of the table if all are live. */
    method EvictNeg(now: int)
      requires Valid()
      modifies this`neg
      ensures Valid() && |neg| < cfg.negativeMax
      ensures forall d :: d in neg ==> d in old(neg) && neg[d] == old(neg)[d] && now < neg[d].expires
      ensures |old(neg)| == cfg.negativeMax && (forall d :: d in old(neg) ==> now < old(neg)[d].expires) ==>
        |neg| == cfg.negativeMax - if cfg.negativeMax / 2 > 1 then cfg.negativeMax / 2 else 1
    {
      hide Charged, CountsSince, TrueRefusals;
      var live := map d | d in neg && now < neg[d].expires :: neg[d];
      StillTrue(neg, live);
      SmallerKeys(live, neg);
      neg := live;
      assert (forall d :: d in old(neg) ==> now < old(neg)[d].expires) ==> live == old(neg);
      if |neg| >= cfg.negativeMax {
        DropHalf();
        StillTrue(live, neg);
      }
    }

    lemma CachedIsTrue(neg: map<Digest, NegEntry>, key: string)
      requires TrueRefusals(neg) && digest(key) in neg
      ensures verdict(key) == Bad(neg[digest(key)].error)
    {
    }

    lemma StillTrue(neg: map<Digest, NegEntry>, part: map<Digest, NegEntry>)
      requires TrueRefusals(neg) && PartOf(part, neg)
      ensures TrueRefusals(part)
    {
    }

    lemma Forget(neg: map<Digest, NegEntry>, d: Digest)
      requires TrueRefusals(neg)
      ensures TrueRefusals(neg - {d}) && |neg - {d}| <= |neg|
      ensures d !in neg ==> neg - {d} == neg
    {
      Fewer(neg, {d});
      StillTrue(neg, neg - {d});
      NotThere(neg, d);
    }

    /** An arbitrary half of the full table. */
    method DropHalf()
      requires |neg| >= cfg.negativeMax > 0
      modifies this`neg
      ensures PartOf(neg, old(neg))
      ensures |neg| == |old(neg)| - if cfg.negativeMax / 2 > 1 then cfg.negativeMax / 2 else 1
    {
      ghost var live := neg;
      var n := 0;
      while neg != map[]
        invariant |neg| + n == |live| && PartOf(neg, live)
        invariant n > 0 ==> n < cfg.negativeMax / 2
        decreases |neg|
      {
        var d :| d in neg;
        RemoveOne(neg, d);
        neg := neg - {d};
        n := n + 1;
        if n >= cfg.negativeMax / 2 { break; }
      }
    }

    predicate CachedNow(key: string, now: int)
      reads this
    {
      digest(key) in neg && now < neg[digest(key)].expires
    }

    /** Validate, with no other validation in between. `cancelled` says whether the caller's context
        is done when the lookup returns: a refusal is then passed on but not counted or remembered.
        MAIN RESULT: the answer is the store's own verdict, unless the address is blocked or the
        store is unavailable; a key the store accepts is looked up every time, and an outage leaves
        no trace in either table. */
    method Validate(key: string, ip: string, now: int, outage: bool, cancelled: bool) returns (a: Answer)
      requires Valid() && CollisionFree(digest)
      modifies this`neg, this`ips, this`log, this`opening, this`ipBlocked, this`negativeHits, this`storeLookups
      ensures Valid()
      ensures old(IsBlocked(ip, now)) <==> a == TooManyAttempts
      ensures a == Unavailable ==> outage && log == old(log) && ips == old(ips) && neg == old(neg) - {digest(key)}
      ensures a != TooManyAttempts && a != Unavailable ==>
        if verdict(key).Good? then a == Accepted(verdict(key).identity) else a == Denied(verdict(key).error)
      ensures a.Accepted? ==> storeLookups == old(storeLookups) + 1 && log == old(log) && ips == old(ips)
      ensures a.Denied? && (old(CachedNow(key, now)) || !cancelled) ==>
        log == Charge(old(log), ip, now) && digest(key) in neg
      ensures a.Denied? && !old(CachedNow(key, now)) && cancelled ==>
        log == old(log) && ips == old(ips) && neg == old(neg) - {digest(key)}
      ensures a == Unavailable <==> outage && !old(IsBlocked(ip, now)) && !old(CachedNow(key, now))
    {
      hide Charged, CountsSince;
      var g := Begin(key, ip, now);
      match g
      case Blocked => a := TooManyAttempts;
      case Cached(error) => a := Denied(error);
      case LookUp =>
        if outage { return Unavailable; }
        if verdict(key).Bad? && !cancelled { Refused(key, ip, now); }
        a := Settled(verdict(key));
    }

    /** Nobody is blocked without cause: since the present window of a blocked address opened, at a
        failure of its own, as many of its failures were counted as the budget allows, none of them
        a window's length or more after the first. */
    lemma BlockedWasEarned(ip: string, now: int)
      requires Valid() && IsBlocked(ip, now)
      ensures ip in opening && CountsSince(ips[ip], log, ip, opening[ip])
      ensures Counted(log[opening[ip]..], ip) >= cfg.failuresPerMinute && now - ips[ip].start < WINDOW
    {
    }
  }

  lemma CountedMore(log: seq<Failure>, f: Failure, ip: string, at: nat)
    requires at <= |log|
    ensures Counted((log + [f])[at..], ip) == Counted(log[at..], ip) + if f.ip == ip then 1 else 0
  {
    assert (log + [f])[at..] == log[at..] + [f] && (log[at..] + [f])[..|log| - at] == log[at..];
  }

  /** A failure of another address changes nothing. */
  lemma OthersFailure(e: IpEntry, log: seq<Failure>, ip: string, at: nat, f: Failure)
    requires CountsSince(e, log, ip, at) && f.ip != ip
    ensures CountsSince(e, log + [f], ip, at)
  {
    CountedMore(log, f, ip, at);
  }

  ghost function Of(opening: map<string, nat>, ips: map<string, IpEntry>): map<string, nat> {
    map k | k in ips && k in opening :: opening[k]
  }

  /** Addresses that are forgotten leave the others as they were. */
  lemma StillCharged(ips: map<string, IpEntry>, opening: map<string, nat>, log: seq<Failure>,
                     fewer: map<string, IpEntry>)
    requires Charged(ips, opening, log) && fewer.Keys <= ips.Keys && forall k :: k in fewer ==> fewer[k] == ips[k]
    ensures Charged(fewer, Of(opening, fewer), log)
  {
    hide CountsSince;
  }

  /** One more failure in an open window. */
  lemma CountsOneMore(e: IpEntry, log: seq<Failure>, ip: string, at: nat, now: int)
    requires CountsSince(e, log, ip, at) && now - e.start < WINDOW
    ensures CountsSince(IpEntry(e.start, e.fails + 1), log + [Failure(ip, now)], ip, at)
  {
    hide Counted;
    CountedMore(log, Failure(ip, now), ip, at);
  }

  lemma ChargedAgain(ips: map<string, IpEntry>, opening: map<string, nat>, log: seq<Failure>, ip: string, now: int)
    requires Charged(ips, opening, log) && ip in ips && now - ips[ip].start < WINDOW
    ensures Charged(ips[ip := IpEntry(ips[ip].start, ips[ip].fails + 1)], opening, log + [Failure(ip, now)])
  {
    hide CountsSince;
    forall i | i in ips && i != ip
      ensures CountsSince(ips[i], log + [Failure(ip, now)], i, opening[i])
    {
      OthersFailure(ips[i], log, i, opening[i], Failure(ip, now));
    }
    CountsOneMore(ips[ip], log, ip, opening[ip], now);
  }

  lemma ChargedFirst(ips: map<string, IpEntry>, opening: map<string, nat>, log: seq<Failure>, ip: string, now: int)
    requires Charged(ips, opening, log)
    ensures Charged(ips[ip := IpEntry(now, 1)], opening[ip := |log|], log + [Failure(ip, now)])
  {
    forall i | i in ips && i != ip
      ensures CountsSince(ips[i], log + [Failure(ip, now)], i, opening[i])
    {
      OthersFailure(ips[i], log, i, opening[i], Failure(ip, now));
    }
    CountedMore(log, Failure(ip, now), ip, |log|);
  }

  predicate PartOf(part: map<Digest, NegEntry>, whole: map<Digest, NegEntry>) {
    part.Keys <= whole.Keys && forall d :: d in part ==> part[d] == whole[d]
  }

  lemma SmallerKeys<K, V>(a: map<K, V>, b: map<K, V>)
    requires a.Keys <= b.Keys
    ensures |a| <= |b|
  {
    assert b.Keys == a.Keys + (b.Keys - a.Keys);
    assert |a| == |a.Keys| && |b| == |b.Keys|;
  }

  lemma Fewer<K, V>(m: map<K, V>, ks: set<K>)
    ensures |m - ks| <= |m|
  {
    SmallerKeys(m - ks, m);
  }

  lemma RemoveOne<K, V>(m: map<K, V>, k: K)
    requires k in m
    ensures |m - {k}| == |m| - 1
  {
    assert m.Keys == (m - {k}).Keys + {k};
    assert |m| == |m.Keys| && |m - {k}| == |(m - {k}).Keys|;
  }

  lemma NotThere<K, V>(m: map<K, V>, k: K)
    ensures k !in m ==> m - {k} == m
  {
  }
}
