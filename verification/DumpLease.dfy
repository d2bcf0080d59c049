/** The timed snapshot lease of a dump (internal/backup/lease.go:59-154): a window measured on this
    process's clock stands in for an interval that only the engine's clock knows. Times are in
    milliseconds. */
module DumpLease {
  import opened Common

  const MARGIN := 250
  const MIN_TIMEOUT := 1000
  const MAX_TIMEOUT := 24 * 60 * 60 * 1000
  const DEFAULT_TIMEOUT := 600_000

  datatype Lease = Lease(timeout: int, deadline: int)

  /** How the engine answers ACQUIRE SNAPSHOT LEASE. */
  datatype Answer = Granted | HeldElsewhere | Unsupported | Failure

  datatype LeaseError = AlreadyHeld | Expired | AcquireFailed

  /** leaseTimeoutMillis: a configured value outside the allowed range is ignored. */
  function LeaseTimeout(configured: Option<int>): (t: int)
    ensures t == if configured.Some? && 1000 <= configured.value <= 86_400_000 then configured.value else 600_000
  {
    if configured.Some? && MIN_TIMEOUT <= configured.value <= MAX_TIMEOUT then configured.value else DEFAULT_TIMEOUT
  }

  /** checkLeaseWindow: a dump without a lease has no window to leave. */
  predicate InWindow(lease: Option<Lease>, now: int) {
    lease.Some? ==> now < lease.value.deadline - MARGIN
  }

  /** acquireDumpLease: `before` and `after` are the local clock around the round trip. */
  method AcquireDumpLease(before: int, answer: Answer, after: int, timeout: int)
      returns (r: Result<Option<Lease>, LeaseError>)
    ensures answer == Granted ==>
      r == if after - before < timeout - 250 then Ok(Some(Lease(timeout, before + timeout))) else Err(Expired)
    ensures r.Ok? && r.value.None? <==> answer == Unsupported
    ensures answer == HeldElsewhere ==> r == Err(AlreadyHeld)
  {
    if answer == Granted {
      var lease := Lease(timeout, before + timeout);
      if !InWindow(Some(lease), after) { return Err(Expired); }
      return Ok(Some(lease));
    }
    if answer == HeldElsewhere { return Err(AlreadyHeld); }
    if answer == Unsupported { return Ok(None); }
    r := Err(AcquireFailed);
  }

  // ---------------------------------------------------------------- one dump under two clocks

  /** What happened when, in instants, and what the two clocks showed. The engine grants the lease
      at some instant between the call and its reply; reads follow, then the closing check. */
  datatype LeasedDump = LeasedDump(local: nat -> int, engine: nat -> int,
                                   called: nat, granted: nat, replied: nat, readAt: seq<nat>, checked: nat)

  ghost predicate Orderly(d: LeasedDump) {
    && d.called <= d.granted <= d.replied <= d.checked
    && (forall i :: 0 <= i < |d.readAt| ==> d.replied <= d.readAt[i] <= d.checked)
    && (forall s: nat, t: nat :: s <= t ==> d.local(s) <= d.local(t))
    && (forall s: nat, t: nat :: s <= t ==> d.engine(s) <= d.engine(t))
  }

  /** Over the whole dump the engine's clock gains at most `skew` on the local one. */
  ghost predicate GainsAtMost(d: LeasedDump, skew: int) {
    (d.engine(d.checked) - d.engine(d.called)) - (d.local(d.checked) - d.local(d.called)) <= skew
  }

  /** The closing check passes, on the window started before the call. */
  predicate PassesCheck(d: LeasedDump, timeout: int) {
    InWindow(Some(Lease(timeout, d.local(d.called) + timeout)), d.local(d.checked))
  }

  /** Every read fell inside the lease as the engine kept it. */
  ghost predicate OneMoment(d: LeasedDump, timeout: int) {
    forall i :: 0 <= i < |d.readAt| ==> d.engine(d.granted) <= d.engine(d.readAt[i]) < d.engine(d.granted) + timeout
  }

  /** MAIN RESULT. With the window started before the call and checked after the last read, every
      read is inside the engine's lease, however long the reply took. */
  lemma LeasedDumpIsOneMoment(d: LeasedDump, timeout: int)
    requires Orderly(d) && GainsAtMost(d, MARGIN)
    requires PassesCheck(d, timeout)
    ensures OneMoment(d, timeout)
  {
    forall i | 0 <= i < |d.readAt|
      ensures d.engine(d.granted) <= d.engine(d.readAt[i]) < d.engine(d.granted) + timeout
    {
      assert d.engine(d.granted) <= d.engine(d.readAt[i]) <= d.engine(d.checked);
      assert d.engine(d.called) <= d.engine(d.granted);
    }
  }

  ghost predicate GuaranteedUnder(skew: int, timeout: int) {
    forall d: LeasedDump :: Orderly(d) && GainsAtMost(d, skew) && PassesCheck(d, timeout)
      ==> OneMoment(d, timeout)
  }

  /** The margin is exactly the clock gain it buys. */
  lemma MarginIsTheSkew(skew: int, timeout: int)
    requires 1000 <= timeout
    ensures GuaranteedUnder(skew, timeout) <==> skew <= 250
  {
    if skew <= MARGIN {
      forall d: LeasedDump | Orderly(d) && GainsAtMost(d, skew) && PassesCheck(d, timeout)
        ensures OneMoment(d, timeout)
      {
        LeasedDumpIsOneMoment(d, timeout);
      }
    } else {
      var d := Late(timeout - MARGIN - 1, timeout);
      assert d.readAt[0] == 1;
      assert !OneMoment(d, timeout);
    }
  }

  /** A dump with one read, at its end, that the local clock puts at `shown` and the engine at
      the expiry of the lease. */
  function Late(shown: int, timeout: int): LeasedDump {
    LeasedDump(t => if t == 0 then 0 else shown, t => if t == 0 then 0 else timeout, 0, 0, 0, [1], 1)
  }

  /** Started at the reply instead, the window would outlast the lease by the reply's latency,
      even with clocks that agree. */
  lemma WindowFromTheReplyIsNotEnough(timeout: int, latency: int) returns (d: LeasedDump)
    requires MIN_TIMEOUT <= timeout && MARGIN < latency
    ensures Orderly(d) && GainsAtMost(d, 0) && d.local(d.replied) - d.local(d.called) == latency
    ensures InWindow(Some(Lease(timeout, d.local(d.replied) + timeout)), d.local(d.checked)) && !OneMoment(d, timeout)
  {
    var end := if latency < timeout then timeout else latency;
    var clock: nat -> int := t => if t == 0 then 0 else if t == 1 then latency else end;
    d := LeasedDump(clock, clock, 0, 0, 1, [2], 2);
    assert d.readAt[0] == 2 && d.engine(2) == end;
  }
}
