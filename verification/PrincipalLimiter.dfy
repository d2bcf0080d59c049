/** The per-principal rate limiter of AI queries (internal/aiquery/admission.go:34-99): ten tokens,
    refilled whole after a minute, in a table of at most 4096 principals. Times are in
    milliseconds. */
module PrincipalLimiter {
  import opened Common

  const BURST := 10
  const MINUTE := 60_000
  const IDLE := 5 * 60_000
  const MAX_BUCKETS := 4096
  const SLOTS := 4

  datatype Bucket = Bucket(tokens: nat, filled: int)

  datatype Admission = Admission(key: string, at: int)

  /** Admissions of a principal at or after a time. */
  function Admitted(log: seq<Admission>, key: string, since: int): nat {
    if log == [] then 0
    else
      var last := log[|log| - 1];
      Admitted(log[..|log| - 1], key, since) + if last.key == key && last.at >= since then 1 else 0
  }

  lemma AdmittedMore(log: seq<Admission>, a: Admission, key: string, since: int)
    ensures Admitted(log + [a], key, since) ==
      Admitted(log, key, since) + if a.key == key && a.at >= since then 1 else 0
  {
    assert (log + [a])[..|log|] == log;
  }

  lemma {:induction false} NoneYet(log: seq<Admission>, key: string, since: int)
    requires forall i :: 0 <= i < |log| ==> log[i].key != key || log[i].at < since
    ensures Admitted(log, key, since) == 0
  {
    if log != [] { NoneYet(log[..|log| - 1], key, since); }
  }

  /** Whole minutes, rounded down. */
  function Minutes(t: nat): nat { t / MINUTE }

  /** The most a principal can have been admitted since a time, given the bucket it last had. */
  function Ceiling(b: Bucket, since: int): int {
    if since <= b.filled then BURST * (Minutes(b.filled - since) + 2) - b.tokens else BURST - b.tokens
  }

  lemma MinutesGrow(a: nat, b: nat)
    requires a + MINUTE <= b
    ensures Minutes(a) + 1 <= Minutes(b)
  {
  }

  lemma MinutesMonotone(a: nat, b: nat)
    requires a <= b
    ensures Minutes(a) <= Minutes(b)
  {
  }

  /** No principal has been admitted past its ceiling, since any time. */
  ghost predicate Under(ideal: map<string, Bucket>, log: seq<Admission>) {
    forall k, since {:trigger Admitted(log, k, since)} ::
      k in ideal ==> Admitted(log, k, since) <= Ceiling(ideal[k], since)
  }

  ghost predicate Known(ideal: map<string, Bucket>, log: seq<Admission>, clock: int) {
    && (forall k :: k in ideal ==> ideal[k].tokens <= BURST && ideal[k].filled <= clock)
    && (forall i :: 0 <= i < |log| ==> log[i].key in ideal && log[i].at <= clock)
  }

  /** The bucket a principal draws from: its own, or a full one when it has none or a minute is up. */
  function Drawn(ideal: map<string, Bucket>, key: string, now: int): Bucket {
    if key in ideal && now - ideal[key].filled < MINUTE then ideal[key] else Bucket(BURST, now)
  }

  /** A full bucket, a minute after the last, has room for all its tokens under the ceiling. */
  lemma DrawnUnder(ideal: map<string, Bucket>, log: seq<Admission>, clock: int, key: string, now: int, since: int)
    requires Under(ideal, log) && Known(ideal, log, clock) && clock <= now
    ensures Admitted(log, key, since) <= Ceiling(Drawn(ideal, key, now), since)
  {
    if key in ideal {
      var b := ideal[key];
      assert Admitted(log, key, since) <= Ceiling(b, since);
      if now - b.filled >= MINUTE {
        if since > now {
          NoneYet(log, key, since);
        } else if since <= b.filled {
          MinutesGrow(b.filled - since, now - since);
        }
      }
    } else {
      NoneYet(log, key, since);
    }
  }

  lemma TakenUnder(ideal: map<string, Bucket>, log: seq<Admission>, clock: int, key: string, now: int)
    requires Under(ideal, log) && Known(ideal, log, clock) && clock <= now && Drawn(ideal, key, now).tokens > 0
    ensures var b := Drawn(ideal, key, now);
      && Under(ideal[key := b.(tokens := b.tokens - 1)], log + [Admission(key, now)])
      && Known(ideal[key := b.(tokens := b.tokens - 1)], log + [Admission(key, now)], now)
  {
    var b := Drawn(ideal, key, now);
    forall k, since | k == key || k in ideal
      ensures Admitted(log + [Admission(key, now)], k, since)
              <= Ceiling(ideal[key := b.(tokens := b.tokens - 1)][k], since)
    {
      AdmittedMore(log, Admission(key, now), k, since);
      if k == key { DrawnUnder(ideal, log, clock, key, now, since); }
    }
  }

  // ---------------------------------------------------------------- what the log alone says

  /** When a principal's current minute began: at an admission a whole minute or more after the one
      that began the minute before. */
  ghost function Opened(log: seq<Admission>, key: string): Option<int> {
    if log == [] then None
    else
      var before, last := Opened(log[..|log| - 1], key), log[|log| - 1];
      if last.key == key && (before.None? || last.at - before.value >= 60_000) then Some(last.at) else before
  }

  /** Admitted while fewer than ten were since the minute began, or once a new one may begin. */
  ghost predicate WithinBurst(log: seq<Admission>, key: string, now: int) {
    match Opened(log, key)
    case None => true
    case Some(since) => now - since >= 60_000 || Admitted(log, key, since) < 10
  }

  /** The bucket of a principal is what its admissions left of ten tokens since its minute began. */
  ghost predicate Exact(b: Bucket, log: seq<Admission>, key: string) {
    && Opened(log, key) == Some(b.filled) && b.tokens == 10 - Admitted(log, key, b.filled)
    && (exists i :: 0 <= i < |log| && log[i] == Admission(key, b.filled))
    && forall i :: 0 <= i < |log| && log[i].key == key ==> log[i].at < b.filled + 60_000
  }

  lemma {:induction false} NeverOpened(log: seq<Admission>, key: string)
    requires forall i :: 0 <= i < |log| ==> log[i].key != key
    ensures Opened(log, key) == None
  {
    if log != [] { NeverOpened(log[..|log| - 1], key); }
  }

  lemma {:induction false} FewerLater(log: seq<Admission>, key: string, since: int, later: int)
    requires since <= later
    ensures Admitted(log, key, later) <= Admitted(log, key, since)
  {
    if log != [] { FewerLater(log[..|log| - 1], key, since, later); }
  }

  /** Fewer than ten admissions in the last minute are within the burst. */
  lemma QuietIsWithin(ideal: map<string, Bucket>, log: seq<Admission>, key: string, now: int)
    requires key in ideal ==> Exact(ideal[key], log, key)
    requires key !in ideal ==> forall i :: 0 <= i < |log| ==> log[i].key != key
    requires Admitted(log, key, now - 60_000 + 1) < 10
    ensures WithinBurst(log, key, now)
  {
    if key in ideal {
      var since := ideal[key].filled;
      if now - since < 60_000 { FewerLater(log, key, now - 60_000 + 1, since); }
    } else {
      NeverOpened(log, key);
    }
  }

  lemma TakenExact(ideal: map<string, Bucket>, log: seq<Admission>, clock: int, key: string, now: int)
    requires Known(ideal, log, clock) && clock <= now && (key in ideal ==> Exact(ideal[key], log, key))
    requires Drawn(ideal, key, now).tokens > 0
    ensures var b := Drawn(ideal, key, now); Exact(b.(tokens := b.tokens - 1), log + [Admission(key, now)], key)
  {
    var b, log' := Drawn(ideal, key, now), log + [Admission(key, now)];
    AdmittedMore(log, Admission(key, now), key, b.filled);
    assert log'[..|log|] == log;
    if key !in ideal { NeverOpened(log, key); }
    if b.filled == now && !(key in ideal && now - ideal[key].filled < MINUTE) {
      NoneYet(log, key, now);
      assert log'[|log|] == Admission(key, now);
    } else {
      var i :| 0 <= i < |log| && log[i] == Admission(key, b.filled);
      assert log'[i] == Admission(key, b.filled);
    }
  }

  lemma OthersExact(b: Bucket, log: seq<Admission>, a: Admission, key: string)
    requires Exact(b, log, key) && a.key != key
    ensures Exact(b, log + [a], key)
  {
    AdmittedMore(log, a, key, b.filled);
    assert (log + [a])[..|log|] == log;
    var i :| 0 <= i < |log| && log[i] == Admission(key, b.filled);
    assert (log + [a])[i] == Admission(key, b.filled);
  }

  lemma AllExact(ideal: map<string, Bucket>, log: seq<Admission>, clock: int, key: string, now: int,
                 next: map<string, Bucket>)
    requires Known(ideal, log, clock) && clock <= now && (forall k :: k in ideal ==> Exact(ideal[k], log, k))
    requires Drawn(ideal, key, now).tokens > 0
    requires next == ideal[key := Drawn(ideal, key, now).(tokens := Drawn(ideal, key, now).tokens - 1)]
    ensures forall k :: k in next ==> Exact(next[k], log + [Admission(key, now)], k)
  {
    hide Exact;
    TakenExact(ideal, log, clock, key, now);
    forall k | k in ideal && k != key
      ensures Exact(ideal[k], log + [Admission(key, now)], k)
    {
      OthersExact(ideal[k], log, Admission(key, now), k);
    }
  }

  /** The principals admitted in the last five minutes. */
  ghost function Recent(log: seq<Admission>, now: int): set<string> {
    set a | a in log && now - a.at <= 300_000 :: a.key
  }

  lemma ActiveIsRecent(buckets: map<string, Bucket>, log: seq<Admission>, now: int)
    requires forall k :: k in buckets ==> Exact(buckets[k], log, k)
    ensures |Active(buckets, now)| <= |Recent(log, now)|
  {
    var active := Active(buckets, now);
    forall k | k in active
      ensures k in Recent(log, now)
    {
      var i :| 0 <= i < |log| && log[i] == Admission(k, buckets[k].filled);
      assert log[i] in log;
    }
    assert Recent(log, now) == active.Keys + (Recent(log, now) - active.Keys);
    assert |active| == |active.Keys|;
  }

  datatype Verdict = Admit | BadQuestion | Cancelled | NoPrincipal | RateLimited | Busy

  const MAX_QUESTION := 4000

  /** ValidateQuestion; strings are bytes here. */
  predicate ValidQuestion(trim: string -> string, question: string) {
    trim(question) != "" && |question| <= MAX_QUESTION
  }

  class Limiter {
    var buckets: map<string, Bucket>
    var slots: nat
    ghost var ideal: map<string, Bucket>   // the bucket every principal last had, never evicted
    ghost var log: seq<Admission>          // every token taken
    ghost var clock: int

    constructor (start: int)
      ensures Valid() && log == [] && slots == 0 && clock == start
    {
      buckets, slots, ideal, log, clock := map[], 0, map[], [], start;
    }

    ghost predicate Valid()
      reads this
    {
      && |buckets| <= MAX_BUCKETS && slots <= SLOTS
      && Known(ideal, log, clock) && Under(ideal, log)
      && (forall k :: k in ideal ==> Exact(ideal[k], log, k))
      && (forall k :: k in buckets ==> k in ideal && buckets[k] == ideal[k])
      && (forall k :: k in ideal && k !in buckets ==> clock - ideal[k].filled > IDLE)
    }

    /** The answer of a limiter that never evicts and has no cap. */
    ghost predicate IdealAnswer(key: string, now: int)
      reads this
    {
      key !in ideal || now - ideal[key].filled >= MINUTE || ideal[key].tokens > 0
    }

    /** Room for the principal, once idle buckets are gone. */
    ghost predicate HasRoom(key: string, now: int)
      reads this
    {
      key in buckets || |buckets| < MAX_BUCKETS || |Active(buckets, now)| < MAX_BUCKETS
    }

    /** What the log says is what the buckets say. */
    lemma IdealIsWithin(key: string, now: int)
      requires Valid()
      ensures IdealAnswer(key, now) <==> WithinBurst(log, key, now)
    {
      if key !in ideal { NeverOpened(log, key); }
    }

    /** At the cap, drop the buckets that have been idle for five minutes. */
    method MakeRoom(now: int) returns (ok: bool)
      requires Valid() && clock == now
      modifies this`buckets
      ensures Valid() && (ok <==> |buckets| < MAX_BUCKETS)
      ensures buckets == if |old(buckets)| < MAX_BUCKETS then old(buckets) else Active(old(buckets), now)
    {
      hide Exact, Under, Known;
      if |buckets| >= MAX_BUCKETS {
        ActiveFewer(buckets, now);
        buckets := Active(buckets, now);
      }
      ok := |buckets| < MAX_BUCKETS;
    }

    /** allow. MAIN RESULT: a principal is admitted up to ten times in a minute that begins with its
        first admission, so always with fewer than ten in the last minute. Eviction changes no answer;
        the only difference from an unbounded limiter is that a new principal is refused while 4096
        others are active, each admitted in the last five minutes. */
    method Allow(key: string, now: int) returns (ok: bool)
      requires Valid() && clock <= now
      modifies this`buckets, this`ideal, this`log, this`clock
      ensures Valid() && clock == now
      ensures ok <==> old(IdealAnswer(key, now)) && old(HasRoom(key, now))
      ensures log == if ok then old(log) + [Admission(key, now)] else old(log)
      ensures ok <==> old(WithinBurst(log, key, now)) && old(HasRoom(key, now))
      ensures old(HasRoom(key, now)) && Admitted(old(log), key, now - 60_000 + 1) < 10 ==> ok
      ensures |Recent(old(log), now)| < 4096 ==> old(HasRoom(key, now))
      ensures ok ==> key in buckets && buckets[key].tokens == 10 - Admitted(log, key, buckets[key].filled)
      ensures |buckets| <= 4096
    {
      hide Exact, Under, Admitted, Opened, WithinBurst, Recent;
      IdealIsWithin(key, now);
      if Admitted(log, key, now - 60_000 + 1) < 10 { QuietNow(key, now); }
      ActiveIsRecent(buckets, log, now);
      clock := now;
      var b: Bucket;
      if key !in buckets {
        ok := MakeRoom(now);
        if !ok { return; }
        b := Bucket(BURST, now);
      } else if now - buckets[key].filled >= MINUTE {
        b := Bucket(BURST, now);
      } else {
        b := buckets[key];
      }
      if b.tokens <= 0 { return false; }
      Take(key, b, now);
      TokensLeft(key);
      ok := true;
    }

    lemma QuietNow(key: string, now: int)
      requires Valid() && Admitted(log, key, now - 60_000 + 1) < 10
      ensures WithinBurst(log, key, now)
    {
      QuietIsWithin(ideal, log, key, now);
    }

    lemma TokensLeft(key: string)
      requires Valid() && key in buckets
      ensures buckets[key].tokens == 10 - Admitted(log, key, buckets[key].filled)
    {
      assert Exact(ideal[key], log, key);
    }

    /** One token from the bucket the principal draws from. */
    method Take(key: string, b: Bucket, now: int)
      requires Valid() && clock == now && b == Drawn(ideal, key, now) && b.tokens > 0
      requires key in buckets || |buckets| < MAX_BUCKETS
      modifies this`buckets, this`ideal, this`log
      ensures Valid() && log == old(log) + [Admission(key, now)] && key in buckets
    {
      hide Exact, Under, Known;
      TakenUnder(ideal, log, clock, key, now);
      AllExact(ideal, log, clock, key, now, ideal[key := b.(tokens := b.tokens - 1)]);
      var left := b.(tokens := b.tokens - 1);
      OneMoreKey(buckets, key, left);
      buckets, ideal, log := buckets[key := left], ideal[key := left], log + [Admission(key, now)];
    }

    /** MAIN RESULT. Since any time, a principal has been admitted at most ten times a whole minute
        gone by, and twenty times more. */
    lemma AdmissionBound(key: string, since: int)
      requires Valid() && since <= clock
      ensures Admitted(log, key, since) <= 10 * ((clock - since) / 60_000 + 2)
    {
      hide Exact, Admitted;
      if key in ideal {
        assert Admitted(log, key, since) <= Ceiling(ideal[key], since);
        if since <= ideal[key].filled { MinutesMonotone(ideal[key].filled - since, clock - since); }
      } else {
        NoneYet(log, key, since);
      }
    }

    /** admit: the question, the context and the principal are looked at first, then a token is
        taken, then one of the generation slots. A busy answer has spent its token; a question,
        context or principal refused has spent nothing. */
    method AdmitQuery(trim: string -> string, question: string, cancelled: bool, principal: string, now: int)
        returns (v: Verdict)
      requires Valid() && clock <= now
      modifies this
      ensures Valid()
      ensures v == BadQuestion <==> !ValidQuestion(trim, question)
      ensures v == BadQuestion <==> trim(question) == "" || |question| > 4000
      ensures v == Cancelled <==> ValidQuestion(trim, question) && cancelled
      ensures v == NoPrincipal <==> ValidQuestion(trim, question) && !cancelled && trim(principal) == ""
      ensures v == Admit <==> (&& ValidQuestion(trim, question) && !cancelled && trim(principal) != ""
                               && old(WithinBurst(log, principal, now) && HasRoom(principal, now)) && old(slots) < 4)
      ensures v == RateLimited <==> (&& ValidQuestion(trim, question) && !cancelled && trim(principal) != ""
                                     && !old(WithinBurst(log, principal, now) && HasRoom(principal, now)))
      ensures Admitted(old(log), principal, now - 60_000 + 1) < 10 && |Recent(old(log), now)| < 4096 ==>
        v != RateLimited
      ensures slots == if v == Admit then old(slots) + 1 else old(slots)
      ensures log == if v == Admit || v == Busy then old(log) + [Admission(principal, now)] else old(log)
    {
      if trim(question) == "" || |question| > MAX_QUESTION { return BadQuestion; }
      if cancelled { return Cancelled; }
      if trim(principal) == "" { return NoPrincipal; }
      var ok := Allow(principal, now);
      if !ok { return RateLimited; }
      if slots >= SLOTS { return Busy; }
      slots := slots + 1;
      v := Admit;
    }

    /** The function admit hands out. */
    method Release()
      requires Valid() && slots > 0
      modifies this`slots
      ensures Valid() && slots == old(slots) - 1
    {
      slots := slots - 1;
    }
  }

  lemma ActiveFewer(buckets: map<string, Bucket>, now: int)
    ensures |Active(buckets, now)| <= |buckets|
  {
    var active := Active(buckets, now);
    assert buckets.Keys == active.Keys + (buckets.Keys - active.Keys);
    assert |active| == |active.Keys| && |buckets| == |buckets.Keys|;
  }

  function Active(buckets: map<string, Bucket>, now: int): map<string, Bucket> {
    map k | k in buckets && now - buckets[k].filled <= IDLE :: buckets[k]
  }
}
