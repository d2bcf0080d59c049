/** The bounded table of login flows in progress (internal/auth/oidc.go:70-90, 344-379): a map and
    a queue of its keys, against an ideal table that forgets a flow only when it is asked for.
    Times are in milliseconds. */
module OidcFlows {
  import opened Common

  const MAX_FLOWS := 10_000
  const TTL := 10 * 60 * 1000

  datatype Flow = Flow(nonce: string, verifier: string, exp: int)

  datatype Login = Login(state: string, at: nat)

  /** How many logins started within one lifetime of a flow before `now`. */
  function Recent(log: seq<Login>, now: nat): nat {
    if log == [] then 0
    else Recent(log[..|log| - 1], now) + if log[|log| - 1].at + TTL >= now then 1 else 0
  }

  lemma {:induction false} RecentTail(log: seq<Login>, now: nat, n: nat)
    requires n <= |log| && forall i :: |log| - n <= i < |log| ==> log[i].at + TTL >= now
    ensures Recent(log, now) >= n
  {
    if n > 0 { RecentTail(log[..|log| - 1], now, n - 1); }
  }

  lemma {:induction false} RecentIs(log: seq<Login>, now: nat)
    ensures Recent(log, now) == |set i | 0 <= i < |log| && log[i].at + 600_000 >= now|
  {
    if log != [] {
      var n := |log| - 1;
      var front := log[..n];
      RecentIs(front, now);
      var here, before := set i | 0 <= i < |log| && log[i].at + 600_000 >= now,
                          set i | 0 <= i < n && front[i].at + 600_000 >= now;
      assert here == before + if log[n].at + 600_000 >= now then {n} else {};
    }
  }

  /** The queue holds the latest logins, oldest first. */
  ghost predicate Queue(order: seq<string>, log: seq<Login>) {
    |order| <= |log| && forall k :: 0 <= k < |order| ==> order[k] == log[|log| - |order| + k].state
  }

  ghost predicate History(log: seq<Login>, clock: nat) {
    && (forall i, j :: 0 <= i < j < |log| ==> log[i].at <= log[j].at && log[i].state != log[j].state)
    && (forall i :: 0 <= i < |log| ==> log[i].at <= clock)
  }

  /** Every flow that ideally exists was stored, with no more than one lifetime to go. */
  ghost predicate Stored(ideal: map<string, Flow>, log: seq<Login>) {
    forall s :: s in ideal ==> StoredAt(log, s, ideal[s].exp)
  }

  ghost predicate StoredAt(log: seq<Login>, s: string, exp: int) {
    exists i :: 0 <= i < |log| && log[i].state == s && exp <= log[i].at + TTL
  }

  /** What is in the table is in the queue, and ideally exists. */
  ghost predicate Backed(flows: map<string, Flow>, order: seq<string>, ideal: map<string, Flow>) {
    forall s :: s in flows ==> s in order && s in ideal && ideal[s] == flows[s]
  }

  /** No flow that has neither been asked for nor expired is missing. */
  ghost predicate Faithful(flows: map<string, Flow>, ideal: map<string, Flow>, now: nat) {
    forall s :: s in ideal && now <= ideal[s].exp ==> s in flows
  }

  lemma FaithfulLater(flows: map<string, Flow>, ideal: map<string, Flow>, now: nat, later: nat)
    requires Faithful(flows, ideal, now) && now <= later
    ensures Faithful(flows, ideal, later)
  {
  }

  predicate LiveFront(flows: map<string, Flow>, order: seq<string>, now: nat) {
    order != [] && order[0] in flows && now <= flows[order[0]].exp
  }

  lemma Dropped(flows: map<string, Flow>, order: seq<string>, ideal: map<string, Flow>, log: seq<Login>)
    requires Queue(order, log) && Backed(flows, order, ideal) && order != []
    ensures Queue(order[1..], log) && Backed(flows - {order[0]}, order[1..], ideal)
  {
    forall s | s in flows && s != order[0]
      ensures s in order[1..]
    {
      assert s in order;
    }
  }

  lemma NothingLost(flows: map<string, Flow>, order: seq<string>, ideal: map<string, Flow>, now: nat)
    requires Backed(flows, order, ideal) && order != [] && !LiveFront(flows, order, now)
    ensures Faithful(flows, ideal, now) ==> Faithful(flows - {order[0]}, ideal, now)
  {
  }

  /** A live flow at the front of a full queue: that many logins are recent. */
  lemma FullQueueIsRecent(flows: map<string, Flow>, order: seq<string>, ideal: map<string, Flow>, log: seq<Login>,
                          clock: nat, now: nat)
    requires Queue(order, log) && History(log, clock) && Stored(ideal, log) && Backed(flows, order, ideal)
    requires LiveFront(flows, order, now)
    ensures Recent(log, now) >= |order|
  {
    var base := |log| - |order|;
    assert StoredAt(log, order[0], ideal[order[0]].exp);
    var i :| 0 <= i < |log| && log[i].state == order[0] && ideal[order[0]].exp <= log[i].at + TTL;
    assert log[base].state == order[0] && i == base;
    RecentTail(log, now, |order|);
  }

  class FlowTable {
    var flows: map<string, Flow>
    var order: seq<string>
    ghost var log: seq<Login>            // every login, in the order the lock was taken
    ghost var ideal: map<string, Flow>   // every flow stored and not yet asked for
    ghost var clock: nat

    constructor ()
      ensures Valid() && flows == map[] && log == [] && ideal == map[] && Faithful(flows, ideal, 0)
    {
      flows, order, log, ideal, clock := map[], [], [], map[], 0;
    }

    ghost predicate Valid()
      reads this
    {
      && |order| <= MAX_FLOWS && Queue(order, log) && History(log, clock)
      && Stored(ideal, log) && Backed(flows, order, ideal)
    }

    /** Drop the front of the queue, and its flow if it is still there. */
    method DropFront()
      requires Valid() && order != []
      modifies this`flows, this`order
      ensures Valid() && order == old(order)[1..] && flows == old(flows) - {old(order)[0]}
    {
      Dropped(flows, order, ideal, log);
      flows, order := flows - {order[0]}, order[1..];
    }

    /** The pruning loop: keys at the front whose flow is gone or expired. */
    method Prune(now: nat)
      requires Valid()
      modifies this`flows, this`order
      ensures Valid() && |order| <= |old(order)|
      ensures Faithful(old(flows), ideal, now) ==> Faithful(flows, ideal, now)
      ensures order == [] || LiveFront(flows, order, now)
      ensures old(LiveFront(flows, order, now)) ==> order == old(order) && flows == old(flows)
    {
      while |order| > 0
        invariant Valid() && |order| <= |old(order)|
        invariant Faithful(old(flows), ideal, now) ==> Faithful(flows, ideal, now)
        invariant old(LiveFront(flows, order, now)) ==> order == old(order) && flows == old(flows)
        decreases |order|
      {
        if LiveFront(flows, order, now) { return; }
        NothingLost(flows, order, ideal, now);
        DropFront();
      }
    }

    /** storeFlow. A live flow is pushed out only when ten thousand logins started within the last ten
        minutes; `state` is freshly random. */
    method StoreFlow(state: string, f: Flow, now: nat)
      requires Valid() && clock <= now && f.exp <= now + TTL
      requires forall i :: 0 <= i < |log| ==> log[i].state != state
      modifies this
      ensures Valid() && clock == now && log == old(log) + [Login(state, now)] && ideal == old(ideal)[state := f]
      ensures state in flows && flows[state] == f
      ensures old(Faithful(flows, ideal, clock)) && Recent(old(log), now) < MAX_FLOWS ==> Faithful(flows, ideal, now)
      ensures (old(Faithful(flows, ideal, clock))
               && |set i | 0 <= i < |old(log)| && old(log)[i].at + 600_000 >= now| < 10_000) ==>
        Faithful(flows, ideal, now)
      ensures old(|order| == MAX_FLOWS && LiveFront(flows, order, now) && order[0] != state) ==> old(order[0]) !in flows
      ensures |order| <= 10_000 && order[|order| - 1..] == [state]
    {
      RecentIs(log, now);
      hide Queue, History, Stored, Backed, Faithful;
      MakeRoom(now);
      Appended(flows, order, ideal, log, clock, state, f, now);
      flows, order := flows[state := f], order + [state];
      log, ideal, clock := log + [Login(state, now)], ideal[state := f], now;
    }

    /** Prune, then push out the front if the queue is still full. */
    method MakeRoom(now: nat)
      requires Valid() && clock <= now
      modifies this`flows, this`order
      ensures Valid() && |order| < MAX_FLOWS
      ensures old(Faithful(flows, ideal, clock)) && Recent(log, now) < MAX_FLOWS ==> Faithful(flows, ideal, now)
      ensures old(|order| == MAX_FLOWS && LiveFront(flows, order, now)) ==> old(order[0]) !in flows
    {
      hide Queue, History, Stored, Backed, Faithful;
      if Faithful(flows, ideal, clock) { FaithfulLater(flows, ideal, clock, now); }
      Prune(now);
      if |order| >= MAX_FLOWS {
        FullQueueIsRecent(flows, order, ideal, log, clock, now);
        DropFront();
      }
    }

    /** takeFlow: the flow, once, unless it has expired. */
    method TakeFlow(state: string, now: nat) returns (r: Option<Flow>)
      requires Valid() && clock <= now
      modifies this`flows, this`ideal, this`clock
      ensures Valid() && clock == now && state !in flows && ideal == old(ideal) - {state}
      ensures r.Some? ==> state in old(ideal) && r.value == old(ideal)[state] && now <= r.value.exp
      ensures old(Faithful(flows, ideal, clock)) ==>
        Faithful(flows, ideal, now) && (r.Some? <==> state in old(ideal) && now <= old(ideal)[state].exp)
    {
      r := None;
      if state in flows && now <= flows[state].exp { r := Some(flows[state]); }
      flows := flows - {state};
      ideal, clock := ideal - {state}, now;
    }
  }

  lemma StoredMore(ideal: map<string, Flow>, log: seq<Login>, state: string, f: Flow, now: nat)
    requires Stored(ideal, log) && f.exp <= now + TTL
    ensures Stored(ideal[state := f], log + [Login(state, now)])
  {
    var longer := log + [Login(state, now)];
    forall s: string | s == state || s in ideal
      ensures StoredAt(longer, s, ideal[state := f][s].exp)
    {
      if s == state {
        assert longer[|log|].state == s;
      } else {
        assert StoredAt(log, s, ideal[s].exp);
        var i :| 0 <= i < |log| && log[i].state == s && ideal[s].exp <= log[i].at + TTL;
        assert longer[i] == log[i];
      }
    }
  }

  /** One more login keeps every part of the invariant. */
  lemma Appended(flows: map<string, Flow>, order: seq<string>, ideal: map<string, Flow>, log: seq<Login>, clock: nat,
                 state: string, f: Flow, now: nat)
    requires Queue(order, log) && History(log, clock) && Stored(ideal, log) && Backed(flows, order, ideal)
    requires clock <= now && f.exp <= now + TTL && forall i :: 0 <= i < |log| ==> log[i].state != state
    ensures Queue(order + [state], log + [Login(state, now)]) && History(log + [Login(state, now)], now)
    ensures Stored(ideal[state := f], log + [Login(state, now)])
    ensures Backed(flows[state := f], order + [state], ideal[state := f])
    ensures Faithful(flows, ideal, now) ==> Faithful(flows[state := f], ideal[state := f], now)
  {
    StoredMore(ideal, log, state, f, now);
    assert (order + [state])[|order|] == state;
  }
}
