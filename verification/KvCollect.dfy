/** Reads of the source-map namespace under live writers, and what two equal ones prove
    (internal/backup/kvsrcmap.go:23-41, 171-234). */
module KvCollect {
  import opened Common
  import opened KvNamespace

  type Decoder = string -> Option<string>

  // ---------------------------------------------------------------- collects over a history

  /** When one read of the namespace saw what: the instant of the listing and, for every key
      visited, the instant its accepted reading was taken. */
  datatype Collect = Collect(listAt: nat, readAt: map<string, nat>)

  function Found(m: map<string, Content>, k: string): Option<Content> { if k in m then Some(m[k]) else None }

  /** Key k was read at instant t between lo and hi, and `m` holds what was read. */
  ghost predicate ReadAs(past: seq<Kv>, lo: nat, hi: nat, m: map<string, Content>, t: nat, k: string) {
    lo <= t <= hi < |past| && Observe(past[t], k) == Found(m, k) && (TypeOf(k) == StringKey ==> k in m)
  }

  /** `m` is what a read returned that listed and visited keys between instants lo and hi. */
  ghost predicate Collected(decode: Decoder, past: seq<Kv>, lo: nat, hi: nat, m: map<string, Content>, c: Collect) {
    && lo <= c.listAt <= hi < |past|
    && c.readAt.Keys == Visited(decode, Listed(past[c.listAt]))
    && m.Keys <= c.readAt.Keys
    && forall k :: k in c.readAt ==> ReadAs(past, c.listAt, hi, m, c.readAt[k], k)
  }

  /** If key k reads the same at i and l, it read the same all the time in between. */
  ghost predicate Steady(past: seq<Kv>, k: string, i: nat, j: nat, l: nat)
    requires i <= j <= l < |past|
  {
    Observe(past[i], k) == Observe(past[l], k) ==> Observe(past[j], k) == Observe(past[i], k)
  }

  /** No key returns to an earlier value or presence once it has left it. */
  ghost predicate NoReturn(past: seq<Kv>, lo: nat) {
    forall k: string, i, j, l :: lo <= i <= j <= l < |past| ==> Steady(past, k, i, j, l)
  }

  ghost predicate OwnNamesSince(past: seq<Kv>, from: nat) {
    forall i :: from <= i < |past| ==> OwnNames(past[i])
  }

  /** A listed blob key was read, so the other equal read listed it too. */
  lemma ListedByBoth(decode: Decoder, past: seq<Kv>, lo: nat, hi: nat, lo': nat, hi': nat, m: map<string, Content>,
                     c: Collect, d: Collect, k: string)
    requires Collected(decode, past, lo, hi, m, c) && Collected(decode, past, lo', hi', m, d)
    requires k in Listed(past[c.listAt]) && TypeOf(k) == StringKey
    ensures k in Listed(past[d.listAt])
  {
    assert k in c.readAt && ReadAs(past, c.listAt, hi, m, c.readAt[k], k);
    assert k in m && k in d.readAt;
    NotAnIndexKey(decode, k, Listed(past[d.listAt]));
  }

  /** Two reads that returned the same content listed the same keys. */
  lemma SameListed(decode: Decoder, past: seq<Kv>, lo: nat, hi: nat, lo': nat, hi': nat, m: map<string, Content>,
                   c: Collect, d: Collect)
    requires Collected(decode, past, lo, hi, m, c) && Collected(decode, past, lo', hi', m, d)
    requires OwnNames(past[c.listAt]) && OwnNames(past[d.listAt])
    ensures Listed(past[c.listAt]) == Listed(past[d.listAt])
  {
    forall k | k in Listed(past[c.listAt])
      ensures k in Listed(past[d.listAt])
    {
      ListedByBoth(decode, past, lo, hi, lo', hi', m, c, d, k);
    }
    forall k | k in Listed(past[d.listAt])
      ensures k in Listed(past[c.listAt])
    {
      ListedByBoth(decode, past, lo', hi', lo, hi, m, d, c, k);
    }
  }

  /** A visited key of string type was listed. */
  lemma NotAnIndexKey(decode: Decoder, k: string, listed: set<string>)
    requires k in Visited(decode, listed) && TypeOf(k) == StringKey
    ensures k in listed
  {
    if k !in listed {
      if s :| s in SitesOf(decode, listed) && k == ReleasesKey(s) {
        IndexKeyTypes(s);
      } else {
        var s :| s in SitesOf(decode, listed) && k == RelageKey(s);
        IndexKeyTypes(s);
      }
    }
  }

  lemma IndexKeyTypes(site: string)
    ensures TypeOf(ReleasesKey(site)) == SetKey && TypeOf(RelageKey(site)) == ZSetKey
  {
    assert ReleasesKey(site)[..7] == NS && ReleasesKey(site)[7..] == "releases:" + site;
    assert RelageKey(site)[..7] == NS && RelageKey(site)[7..] == "relage:" + site;
    assert ("releases:" + site)[2] != "relage:"[2] || ("releases:" + site)[3] != "relage:"[3];
  }

  lemma CoveredIs(decode: Decoder, kv: Kv, m: map<string, Content>)
    requires m.Keys <= Visited(decode, Listed(kv))
    requires forall k :: k in Visited(decode, Listed(kv)) ==> Observe(kv, k) == Found(m, k)
    ensures m == Covered(decode, kv)
  {
  }

  // ---------------------------------------------------------------- when two equal reads pin an instant

  /** Key k reads as x at instant i, where the first read may have taken it, and at j, where the
      second may have. */
  ghost predicate ReadAsBoth(past: seq<Kv>, a: nat, mid: nat, l: nat, hi: nat, k: string, x: Option<Content>, i: nat,
                             j: nat) {
    && a <= i <= mid <= l <= j <= hi < |past| && Observe(past[i], k) == x && Observe(past[j], k) == x
    && (TypeOf(k) == StringKey ==> x.Some?)
  }

  /** Both reads, listing at a and at l, can find k to be x. */
  ghost predicate InCommon(past: seq<Kv>, a: nat, mid: nat, l: nat, hi: nat, k: string, x: Option<Content>) {
    exists i, j :: ReadAsBoth(past, a, mid, l, hi, k, x, i, j)
  }

  /** Two reads listing at a and at l can agree on every key they visit. */
  ghost predicate CanAgree(decode: Decoder, past: seq<Kv>, a: nat, mid: nat, l: nat, hi: nat) {
    && a <= mid <= l <= hi < |past| && Listed(past[a]) == Listed(past[l])
    && forall k :: k in Visited(decode, Listed(past[l])) ==> exists x :: InCommon(past, a, mid, l, hi, k, x)
  }

  /** Whatever two such reads can agree on for key k is its state at l. */
  ghost predicate AgreesNow(past: seq<Kv>, a: nat, mid: nat, l: nat, hi: nat, k: string)
    requires l < |past|
  {
    forall x :: InCommon(past, a, mid, l, hi, k, x) ==> x == Observe(past[l], k)
  }

  /** The condition: where two reads can agree on every key, no key has a state in common to both
      but the one it has when the second read lists. */
  ghost predicate NothingElseInCommon(decode: Decoder, past: seq<Kv>, lo: nat, mid: nat, hi: nat) {
    forall a: nat, l: nat {:trigger CanAgree(decode, past, a, mid, l, hi)} ::
      lo <= a && CanAgree(decode, past, a, mid, l, hi) ==>
      forall k :: k in Visited(decode, Listed(past[l])) ==> AgreesNow(past, a, mid, l, hi, k)
  }

  /** Every two equal reads, one over lo..mid and one over mid..hi, are the covered namespace at the
      instant the second one listed. */
  ghost predicate EqualReadsPin(decode: Decoder, past: seq<Kv>, lo: nat, mid: nat, hi: nat) {
    forall m, c, d :: Collected(decode, past, lo, mid, m, c) && Collected(decode, past, mid, hi, m, d) ==>
      m == Covered(decode, past[d.listAt])
  }

  lemma PairIsCommon(decode: Decoder, past: seq<Kv>, lo: nat, mid: nat, hi: nat, m: map<string, Content>, c: Collect,
                     d: Collect)
    requires Collected(decode, past, lo, mid, m, c) && Collected(decode, past, mid, hi, m, d)
    requires Listed(past[c.listAt]) == Listed(past[d.listAt])
    ensures CanAgree(decode, past, c.listAt, mid, d.listAt, hi)
    ensures forall k :: k in Visited(decode, Listed(past[d.listAt])) ==>
      InCommon(past, c.listAt, mid, d.listAt, hi, k, Found(m, k))
  {
    forall k | k in Visited(decode, Listed(past[d.listAt]))
      ensures InCommon(past, c.listAt, mid, d.listAt, hi, k, Found(m, k))
    {
      assert ReadAs(past, c.listAt, mid, m, c.readAt[k], k) && ReadAs(past, d.listAt, hi, m, d.readAt[k], k);
      assert ReadAsBoth(past, c.listAt, mid, d.listAt, hi, k, Found(m, k), c.readAt[k], d.readAt[k]);
    }
  }

  /** The condition suffices. */
  lemma PinnedRead(decode: Decoder, past: seq<Kv>, lo: nat, mid: nat, hi: nat, m: map<string, Content>, c: Collect,
                   d: Collect)
    requires Collected(decode, past, lo, mid, m, c) && Collected(decode, past, mid, hi, m, d)
    requires OwnNamesSince(past, lo) && NothingElseInCommon(decode, past, lo, mid, hi)
    ensures m == Covered(decode, past[d.listAt])
  {
    hide Observe, Listed, TypeOf;
    SameListed(decode, past, lo, mid, mid, hi, m, c, d);
    PairIsCommon(decode, past, lo, mid, hi, m, c, d);
    forall k | k in Visited(decode, Listed(past[d.listAt]))
      ensures Observe(past[d.listAt], k) == Found(m, k)
    {
      assert AgreesNow(past, c.listAt, mid, d.listAt, hi, k);
    }
    CoveredIs(decode, past[d.listAt], m);
  }

  /** One way to read a key the same both times. */
  datatype Reading = Reading(x: Option<Content>, i: nat, j: nat)

  ghost predicate Fits(past: seq<Kv>, a: nat, mid: nat, l: nat, hi: nat, k: string, r: Reading) {
    ReadAsBoth(past, a, mid, l, hi, k, r.x, r.i, r.j)
  }

  ghost function Choice(past: seq<Kv>, a: nat, mid: nat, l: nat, hi: nat, k: string): (r: Reading)
    requires exists x :: InCommon(past, a, mid, l, hi, k, x)
    ensures Fits(past, a, mid, l, hi, k, r)
  {
    var x :| InCommon(past, a, mid, l, hi, k, x);
    var i, j :| ReadAsBoth(past, a, mid, l, hi, k, x, i, j);
    Reading(x, i, j)
  }

  /** A choice of readings, one a key, is a pair of equal reads. */
  lemma PairOfReads(decode: Decoder, past: seq<Kv>, lo: nat, a: nat, mid: nat, l: nat, hi: nat,
                    rs: map<string, Reading>)
      returns (m: map<string, Content>, c: Collect, d: Collect)
    requires lo <= a <= mid <= l <= hi < |past| && Listed(past[a]) == Listed(past[l])
    requires rs.Keys == Visited(decode, Listed(past[l])) && forall k :: k in rs ==> Fits(past, a, mid, l, hi, k, rs[k])
    ensures Collected(decode, past, lo, mid, m, c) && Collected(decode, past, mid, hi, m, d) && d.listAt == l
    ensures forall k :: k in rs ==> Found(m, k) == rs[k].x
  {
    hide Observe, Visited, Listed, TypeOf;
    m := map k | k in rs && rs[k].x.Some? :: rs[k].x.value;
    c := Collect(a, map k | k in rs :: rs[k].i);
    d := Collect(l, map k | k in rs :: rs[k].j);
    forall k | k in rs
      ensures ReadAs(past, a, mid, m, c.readAt[k], k) && ReadAs(past, l, hi, m, d.readAt[k], k)
    {
      assert Fits(past, a, mid, l, hi, k, rs[k]);
    }
  }

  /** The condition is needed: from a key with another state in common, two equal reads that show it. */
  lemma PinnedOnlyIf(decode: Decoder, past: seq<Kv>, lo: nat, a: nat, mid: nat, l: nat, hi: nat, key: string,
                     x: Option<Content>)
    requires lo <= a && CanAgree(decode, past, a, mid, l, hi) && key in Visited(decode, Listed(past[l]))
    requires InCommon(past, a, mid, l, hi, key, x) && EqualReadsPin(decode, past, lo, mid, hi)
    ensures x == Observe(past[l], key)
  {
    hide Observe, Listed, TypeOf;
    var i, j :| ReadAsBoth(past, a, mid, l, hi, key, x, i, j);
    var visited := Visited(decode, Listed(past[l]));
    var rs := map k | k in visited :: if k == key then Reading(x, i, j) else Choice(past, a, mid, l, hi, k);
    var m, c, d := PairOfReads(decode, past, lo, a, mid, l, hi, rs);
    assert m == Covered(decode, past[d.listAt]);
    assert Found(m, key) == x;
  }

  /** MAIN RESULT. Two equal consecutive reads of the namespace, whatever order they visit its keys
      in, are what it held when the second one listed, exactly when no key has any other state that
      both could have read while they agreed on all the others. */
  lemma EqualReadsPinExactly(decode: Decoder, past: seq<Kv>, lo: nat, mid: nat, hi: nat)
    requires lo <= mid <= hi < |past| && OwnNamesSince(past, lo)
    ensures EqualReadsPin(decode, past, lo, mid, hi) <==> NothingElseInCommon(decode, past, lo, mid, hi)
  {
    if NothingElseInCommon(decode, past, lo, mid, hi) {
      forall m, c, d | Collected(decode, past, lo, mid, m, c) && Collected(decode, past, mid, hi, m, d)
        ensures m == Covered(decode, past[d.listAt])
      {
        PinnedRead(decode, past, lo, mid, hi, m, c, d);
      }
    }
    if EqualReadsPin(decode, past, lo, mid, hi) {
      forall a: nat, l: nat, k, x | lo <= a && CanAgree(decode, past, a, mid, l, hi)
                                    && k in Visited(decode, Listed(past[l])) && InCommon(past, a, mid, l, hi, k, x)
        ensures x == Observe(past[l], k)
      {
        PinnedOnlyIf(decode, past, lo, a, mid, l, hi, k, x);
      }
    }
  }

  /** If no key returns to an earlier state, the condition is met ... */
  lemma NoReturnSuffices(decode: Decoder, past: seq<Kv>, lo: nat, mid: nat, hi: nat)
    requires NoReturn(past, lo)
    ensures NothingElseInCommon(decode, past, lo, mid, hi)
  {
    forall a: nat, l: nat, k, x | lo <= a && CanAgree(decode, past, a, mid, l, hi)
                                && InCommon(past, a, mid, l, hi, k, x)
      ensures x == Observe(past[l], k)
    {
      var i, j :| ReadAsBoth(past, a, mid, l, hi, k, x, i, j);
      assert Steady(past, k, i, l, j);
    }
  }

  /** ... so the second read lists at an instant whose covered namespace both have read. */
  lemma DoubleCollect(decode: Decoder, past: seq<Kv>, lo: nat, mid: nat, hi: nat, m: map<string, Content>, c: Collect,
                      d: Collect)
    requires Collected(decode, past, lo, mid, m, c) && Collected(decode, past, mid, hi, m, d)
    requires OwnNamesSince(past, lo) && NoReturn(past, lo)
    ensures m == Covered(decode, past[d.listAt])
  {
    NoReturnSuffices(decode, past, lo, mid, hi);
    PinnedRead(decode, past, lo, mid, hi, m, c, d);
  }
}
