/** The convergence loop of a dump (internal/backup/kvsrcmap.go:171-234). The snapshot lease
    does not cover the key-value store, so a dump accepts only two equal consecutive reads and
    an agreeing relist. */
module KvSnapshot {
  import opened Common
  import opened StringOrder
  import opened KvNamespace
  import opened KvCollect
  import opened KvRead

  // ---------------------------------------------------------------- the convergence loop

  const ATTEMPTS := 5

  function StringKeys(keys: seq<string>): seq<string> {
    if keys == [] then []
    else
      var last := keys[|keys| - 1];
      StringKeys(keys[..|keys| - 1]) + (if TypeOf(last) == StringKey then [last] else [])
  }

  /** stringKeysOf: the blob keys, sorted. */
  method StringKeysOf(keys: seq<string>) returns (blobs: seq<string>)
    ensures blobs == Sort(StringKeys(keys))
    ensures Ascending(blobs) && forall k :: k in blobs <==> k in keys && TypeOf(k) == StringKey
  {
    StringKeysMembers(keys);
    SortMembers(StringKeys(keys));
    SortKeeps(StringKeys(keys));
    blobs := [];
    for i := 0 to |keys|
      invariant blobs == StringKeys(keys[..i])
    {
      assert keys[..i + 1][..i] == keys[..i];
      if TypeOf(keys[i]) == StringKey { blobs := blobs + [keys[i]]; }
    }
    assert keys[..|keys|] == keys;
    blobs := Sort(blobs);
  }

  lemma CollectedLater(decode: Decoder, past: seq<Kv>, later: seq<Kv>, lo: nat, lo': nat, hi: nat, hi': nat,
                       m: map<string, Content>, c: Collect)
    requires Collected(decode, past, lo, hi, m, c) && past <= later && lo' <= lo && hi <= hi' < |later|
    ensures Collected(decode, later, lo', hi', m, c)
  {
    forall k | k in c.readAt
      ensures ReadAs(later, c.listAt, hi', m, c.readAt[k], k)
    {
      assert ReadAs(past, c.listAt, hi, m, c.readAt[k], k);
    }
  }

  datatype Agreement = Agree | Differ | Fault(error: Failure)

  lemma {:induction false} StringKeysMembers(keys: seq<string>)
    ensures forall k :: k in StringKeys(keys) <==> k in keys && TypeOf(k) == StringKey
    ensures NoRepeats(keys) ==> NoRepeats(StringKeys(keys))
  {
    if keys != [] {
      StringKeysMembers(keys[..|keys| - 1]);
      EndOf(keys);
    }
  }

  lemma {:induction false} RepeatFreeCount(s: seq<string>, x: string)
    requires NoRepeats(s)
    ensures multiset(s)[x] == if x in s then 1 else 0
  {
    if s != [] {
      RepeatFreeCount(s[..|s| - 1], x);
      EndOf(s);
    }
  }

  lemma SameStringsSameSort(s: seq<string>, t: seq<string>)
    requires NoRepeats(s) && NoRepeats(t) && forall k :: k in s <==> k in t
    ensures Sort(s) == Sort(t)
  {
    forall x
      ensures multiset(s)[x] == multiset(t)[x]
    {
      RepeatFreeCount(s, x);
      RepeatFreeCount(t, x);
    }
    SortKeeps(s);
    SortKeeps(t);
    AscendingIsUnique(Sort(s), Sort(t));
  }

  predicate SameBlob(k: string, a: set<string>, b: set<string>) { TypeOf(k) == StringKey ==> (k in a <==> k in b) }

  /** The blob keys of the store are the blob keys of the snapshot. */
  ghost predicate RelistAgrees(kv: Kv, keys: seq<string>) {
    forall k :: SameBlob(k, Listed(kv), SetOf(keys))
  }

  lemma RelistMeaning(kv: Kv, now: seq<string>, keys: seq<string>)
    requires SetOf(now) == Listed(kv)
    ensures Sort(StringKeys(now)) == Sort(StringKeys(keys)) ==> RelistAgrees(kv, keys)
    ensures NoRepeats(now) && NoRepeats(keys) && RelistAgrees(kv, keys) ==>
      Sort(StringKeys(now)) == Sort(StringKeys(keys))
  {
    StringKeysMembers(now);
    StringKeysMembers(keys);
    if Sort(StringKeys(now)) == Sort(StringKeys(keys)) {
      SortMembers(StringKeys(now));
      SortMembers(StringKeys(keys));
      forall k
        ensures SameBlob(k, Listed(kv), SetOf(keys))
      {
        assert k in now <==> k in SetOf(now);
        assert k in StringKeys(now) <==> k in Sort(StringKeys(now));
        assert k in StringKeys(keys) <==> k in Sort(StringKeys(keys));
      }
    }
    if NoRepeats(now) && NoRepeats(keys) && RelistAgrees(kv, keys) {
      forall k
        ensures k in StringKeys(now) <==> k in StringKeys(keys)
      {
        assert SameBlob(k, Listed(kv), SetOf(keys)) && (k in now <==> k in SetOf(now));
      }
      SameStringsSameSort(StringKeys(now), StringKeys(keys));
    }
  }

  lemma AscendingKeys(ks: seq<string>)
    requires StrictlyAscending(ks)
    ensures NoRepeats(ks) && Ascending(ks)
  {
    forall i, j | 0 <= i < j < |ks|
      ensures ks[i] != ks[j] && Le(ks[i], ks[j])
    {
      assert Less(ks[i], ks[j]);
    }
  }

  /** The closing relist: are the blob keys still those of the snapshot? */
  method Relist(e: Engine, keys: seq<string>) returns (r: Agreement)
    requires e.past != []
    modifies e`calls, e`past
    ensures old(e.past) <= e.past
    ensures r.Agree? ==> RelistAgrees(e.past[|e.past| - 1], keys)
    ensures r.Fault? <==> !e.Answered(old(e.calls))
    ensures old(e.calls) <= e.calls && (r.Fault? ==> r.error == QueryFailed)
    ensures e.Quiet() && NoRepeats(keys) && RelistAgrees(old(e.past)[|old(e.past)| - 1], keys) ==> r.Agree?
    ensures e.Quiet() ==> e.past == old(e.past)
  {
    var now := e.ListKeys();
    if now.None? { return Fault(QueryFailed); }
    var blobsNow := StringKeysOf(now.value);
    var blobs := StringKeysOf(keys);
    RelistMeaning(e.past[|e.past| - 1], now.value, keys);
    r := if blobsNow == blobs then Agree else Differ;
  }

  /** Do two reads agree, and does a closing relist still show the same blob keys? */
  method Compare(e: Engine, fs: Spools, prev: Option<Snapshot>, snap: Snapshot, faults: nat -> bool)
      returns (r: Agreement)
    requires e.past != [] && SpoolHolds(fs.files, snap) && (prev.Some? ==> SpoolHolds(fs.files, prev.value))
    modifies e`calls, e`past
    ensures old(e.past) <= e.past
    ensures r.Agree? ==> prev.Some? && fs.files[prev.value.path] == fs.files[snap.path]
    ensures r.Agree? ==> RelistAgrees(e.past[|e.past| - 1], snap.keys)
    ensures old(e.calls) <= e.calls && (!e.Answered(old(e.calls)) ==> r.Fault?)
    ensures r.Fault? ==> r.error == QueryFailed || r.error == SpoolFailed
    ensures e.Quiet() && (forall n :: !faults(n)) && RelistAgrees(old(e.past)[|old(e.past)| - 1], snap.keys) ==>
      if prev.Some? && fs.files[prev.value.path] == fs.files[snap.path] then r.Agree? else r.Differ?
    ensures e.Quiet() ==> e.past == old(e.past)
  {
    if prev.None? || prev.value.keys != snap.keys { return Differ; }
    var equal := EqualSpools(fs.files[prev.value.path], fs.files[snap.path], faults);
    if equal.Err? { return Fault(equal.error); }
    if !equal.value { return Differ; }
    AscendingKeys(snap.keys);
    r := Relist(e, snap.keys);
  }

  /** What the loop holds between attempts: at most one spool file of its own, with the read
      it came from. */
  ghost predicate Holding(decode: Decoder, files0: map<nat, seq<KvLine>>, files: map<nat, seq<KvLine>>,
                          past: seq<Kv>, lo: nat, prev: Option<Snapshot>, c: Collect) {
    match prev
    case None => files == files0
    case Some(p) =>
      && p.path !in files0 && SpoolHolds(files, p) && files == files0[p.path := files[p.path]]
      && past != [] && Collected(decode, past, lo, |past| - 1, LineMap(files[p.path]), c)
  }

  /** One read of these lines ended at `mid`, a second one ran from there to `hi` and listed at `at`. */
  ghost predicate ReadTwice(decode: Decoder, past: seq<Kv>, lo: nat, mid: nat, hi: nat, lines: seq<KvLine>, at: nat,
                            c: Collect, d: Collect) {
    && Collected(decode, past, lo, mid, LineMap(lines), c) && Collected(decode, past, mid, hi, LineMap(lines), d)
    && d.listAt == at
  }

  /** Instant `at` lies in the second of two reads that gave these lines, after the end of the
      first, and under the exact condition for such a pair it is what they show. */
  ghost predicate PinnedBetween(decode: Decoder, past: seq<Kv>, lo: nat, mid: nat, hi: nat, lines: seq<KvLine>,
                                at: nat) {
    && mid <= at <= hi < |past| && (exists c, d :: ReadTwice(decode, past, lo, mid, hi, lines, at, c, d))
    && (OwnNamesSince(past, lo) && NothingElseInCommon(decode, past, lo, mid, hi) ==>
          LineMap(lines) == Covered(decode, past[at]))
  }

  /** What a returned snapshot means: the covered namespace at instant `at` of the run. */
  ghost predicate PinnedAt(decode: Decoder, past: seq<Kv>, lo: nat, lines: seq<KvLine>, at: nat) {
    && lo <= at < |past| && (exists mid: nat, hi: nat :: PinnedBetween(decode, past, lo, mid, hi, lines, at))
    && (OwnNamesSince(past, lo) && NoReturn(past, lo) ==> LineMap(lines) == Covered(decode, past[at]))
  }

  lemma Pinned(decode: Decoder, past: seq<Kv>, lo: nat, mid: nat, hi: nat, lines: seq<KvLine>, c: Collect, d: Collect)
    requires Collected(decode, past, lo, mid, LineMap(lines), c) && Collected(decode, past, mid, hi, LineMap(lines), d)
    ensures PinnedAt(decode, past, lo, lines, d.listAt)
  {
    hide NothingElseInCommon, NoReturn, OwnNamesSince, Covered;
    assert ReadTwice(decode, past, lo, mid, hi, lines, d.listAt, c, d);
    if OwnNamesSince(past, lo) {
      if NothingElseInCommon(decode, past, lo, mid, hi) { PinnedRead(decode, past, lo, mid, hi, LineMap(lines), c, d); }
      if NoReturn(past, lo) { DoubleCollect(decode, past, lo, mid, hi, LineMap(lines), c, d); }
    }
    assert PinnedBetween(decode, past, lo, mid, hi, lines, d.listAt);
  }

  lemma PinnedNow(decode: Decoder, past0: seq<Kv>, past1: seq<Kv>, later: seq<Kv>, lo: nat, lines: seq<KvLine>,
                  c: Collect, d: Collect)
    requires past0 <= past1 <= later && lo < |past0| && Collected(decode, past0, lo, |past0| - 1, LineMap(lines), c)
    requires Collected(decode, past1, |past0| - 1, |past1| - 1, LineMap(lines), d)
    ensures PinnedAt(decode, later, lo, lines, d.listAt)
  {
    hide Collected, PinnedAt;
    CollectedLater(decode, past0, later, lo, lo, |past0| - 1, |past0| - 1, LineMap(lines), c);
    CollectedLater(decode, past1, later, |past0| - 1, |past0| - 1, |past1| - 1, |past1| - 1, LineMap(lines), d);
    Pinned(decode, later, lo, |past0| - 1, |past1| - 1, lines, c, d);
  }

  lemma SwapSpools(files0: map<nat, seq<KvLine>>, files: map<nat, seq<KvLine>>, prev: Option<Snapshot>, p: nat,
                   v: seq<KvLine>)
    requires p !in files && (if prev.None? then files == files0
                             else prev.value.path in files && prev.value.path !in files0
                                  && files == files0[prev.value.path := files[prev.value.path]])
    ensures files[p := v] - {p} == files
    ensures prev.Some? ==> files - {prev.value.path} == files0 && files[p := v] - {prev.value.path} == files0[p := v]
  {
  }

  lemma SameKeys(ks: seq<string>, ls: seq<string>)
    requires StrictlyAscending(ks) && StrictlyAscending(ls) && forall k :: k in ks <==> k in ls
    ensures ks == ls
  {
    AscendingKeys(ks);
    AscendingKeys(ls);
    forall x
      ensures multiset(ks)[x] == multiset(ls)[x]
    {
      RepeatFreeCount(ks, x);
      RepeatFreeCount(ls, x);
    }
    AscendingIsUnique(ks, ls);
  }

  /** Sorted lines are determined by their content. */
  lemma LinesDetermined(a: seq<KvLine>, b: seq<KvLine>)
    requires StrictlyAscending(KeysOf(a)) && StrictlyAscending(KeysOf(b)) && LineMap(a) == LineMap(b)
    ensures a == b
  {
    LineMapKeys(a);
    LineMapKeys(b);
    SameKeys(KeysOf(a), KeysOf(b));
    AscendingKeys(KeysOf(a));
    forall i | 0 <= i < |a|
      ensures a[i] == b[i]
    {
      assert KeysOf(a)[i] == KeysOf(b)[i];
      LineFound(a, i);
      LineFound(b, i);
    }
  }

  /** The lines are the covered namespace, in key order. */
  ghost predicate Mirrors(decode: Decoder, kv: Kv, lines: seq<KvLine>) {
    StrictlyAscending(KeysOf(lines)) && LineMap(lines) == Covered(decode, kv)
  }

  lemma MirrorIsUnique(decode: Decoder, kv: Kv, a: seq<KvLine>, b: seq<KvLine>)
    requires Mirrors(decode, kv, a) && Mirrors(decode, kv, b)
    ensures a == b
  {
    LinesDetermined(a, b);
  }

  /** A read during which nothing changed is the covered namespace. */
  lemma QuietRead(decode: Decoder, past: seq<Kv>, lo: nat, lines: seq<KvLine>, c: Collect)
    requires lo == |past| - 1 && Collected(decode, past, lo, lo, LineMap(lines), c) && StrictlyAscending(KeysOf(lines))
    ensures Mirrors(decode, past[lo], lines) && RelistAgrees(past[lo], KeysOf(lines))
  {
    var m := LineMap(lines);
    forall k | k in Visited(decode, Listed(past[lo]))
      ensures Observe(past[lo], k) == Found(m, k)
    {
      assert ReadAs(past, c.listAt, lo, m, c.readAt[k], k);
    }
    CoveredIs(decode, past[lo], m);
    LineMapKeys(lines);
    forall k
      ensures SameBlob(k, Listed(past[lo]), SetOf(KeysOf(lines)))
    {
      if TypeOf(k) == StringKey && k in KeysOf(lines) { NotAnIndexKey(decode, k, Listed(past[lo])); }
    }
  }

  /** How one attempt of the loop ends. */
  datatype Attempt = Done(snap: Snapshot) | Again(prev: Option<Snapshot>) | Abort(error: Failure)

  predicate EqualToLast(files: map<nat, seq<KvLine>>, prev: Option<Snapshot>, lines: seq<KvLine>)
    requires prev.Some? ==> prev.value.path in files
  {
    prev.Some? && files[prev.value.path] == lines
  }

  /** A failed call or file operation aborts the loop, and nothing else in an attempt does but a
      cancellation: not a key that vanished. */
  ghost predicate Troubled(e: Engine, fs: Spools, calls: nat, ops: nat, a: Attempt)
    reads e`calls, fs`ops
  {
    && calls <= e.calls && ops <= fs.ops
    && (a.Abort? ==> a.error == QueryFailed || a.error == SpoolFailed || a.error == Cancelled)
    && (!a.Abort? ==> e.Answered(calls) && fs.Served(ops))
  }

  /** How a finished read is settled: its spool file stays unless a fault ends the loop. */
  ghost predicate Decided(decode: Decoder, files0: map<nat, seq<KvLine>>, files: map<nat, seq<KvLine>>, past: seq<Kv>,
                          lo: nat,
                          snap: Snapshot, lines: seq<KvLine>, a: Attempt, at: nat) {
    match a
    case Abort(_) => files == files0
    case Again(prev) => prev == Some(snap) && files == files0[snap.path := lines]
    case Done(result) =>
      && result == snap && files == files0[snap.path := lines]
      && past != [] && PinnedAt(decode, past, lo, lines, at) && RelistAgrees(past[|past| - 1], snap.keys)
  }

  ghost predicate Smooth(e: Engine, faults: nat -> bool) { e.Quiet() && forall n :: !faults(n) }

  function PathOf(prev: Option<Snapshot>): set<nat> { if prev.Some? then {prev.value.path} else {} }

  /** A finished read is compared with the one before; the older of the two spool files goes, on a
      fault both. */
  method Settle(e: Engine, fs: Spools, prev: Option<Snapshot>, snap: Snapshot, faults: nat -> bool) returns (a: Attempt)
    requires fs.Valid() && e.past != [] && SpoolHolds(fs.files, snap)
    requires (prev.Some? ==> SpoolHolds(fs.files, prev.value))
    modifies e`calls, e`past, fs`files
    ensures fs.Valid() && old(e.past) <= e.past
    ensures fs.files == old(fs.files) - (if a.Abort? then {snap.path} else {}) - PathOf(prev)
    ensures a.Again? ==> a.prev == Some(snap)
    ensures Troubled(e, fs, old(e.calls), old(fs.ops), a)
    ensures a.Done? ==> a.snap == snap && EqualToLast(old(fs.files), prev, old(fs.files)[snap.path])
    ensures a.Done? ==> RelistAgrees(e.past[|e.past| - 1], snap.keys)
    // With the listing unchanged, a read equal to the one before it ends the loop.
    ensures Smooth(e, faults) && RelistAgrees(old(e.past)[|old(e.past)| - 1], snap.keys) ==>
      if EqualToLast(old(fs.files), prev, old(fs.files)[snap.path]) then a.Done? else a.Again?
    ensures e.Quiet() ==> e.past == old(e.past)
  {
    var verdict := Compare(e, fs, prev, snap, faults);
    if verdict.Fault? { fs.Remove(snap.path); }
    if prev.Some? { fs.Remove(prev.value.path); }
    a := match verdict
      case Fault(error) => Abort(error)
      case Agree => Done(snap)
      case Differ => Again(Some(snap));
  }

  /** What settling decides: which file is left, and what a finished snapshot means. */
  lemma SettledDecides(decode: Decoder, files0: map<nat, seq<KvLine>>, files1: map<nat, seq<KvLine>>,
                       files: map<nat, seq<KvLine>>,
                       past0: seq<Kv>, past1: seq<Kv>, later: seq<Kv>, lo: nat, prev: Option<Snapshot>, snap: Snapshot,
                       lines: seq<KvLine>, a: Attempt, c: Collect, d: Collect)
    requires past0 <= past1 <= later && lo < |past0| && snap.path !in files0 && snap.path !in files1
    requires Holding(decode, files0, files1, past0, lo, prev, c)
    requires Collected(decode, past1, |past0| - 1, |past1| - 1, LineMap(lines), d)
    requires files == files1[snap.path := lines] - (if a.Abort? then {snap.path} else {}) - PathOf(prev)
    requires a.Again? ==> a.prev == Some(snap)
    requires a.Done? ==>
      a.snap == snap && EqualToLast(files1, prev, lines) && RelistAgrees(later[|later| - 1], snap.keys)
    ensures Decided(decode, files0, files, later, lo, snap, lines, a, d.listAt)
  {
    hide Collected, RelistAgrees, PinnedAt;
    SwapSpools(files0, files1, prev, snap.path, lines);
    if a.Done? { PinnedNow(decode, past0, past1, later, lo, lines, c, d); }
  }

  /** The spool file of the read before, if any, still holds what the store holds now. */
  ghost predicate UpToDate(decode: Decoder, files: map<nat, seq<KvLine>>, past: seq<Kv>, prev: Option<Snapshot>) {
    past != [] && (prev.Some? ==> prev.value.path in files && Mirrors(decode, past[|past| - 1], files[prev.value.path]))
  }

  /** What an attempt comes to when nothing disturbs it: agreement, once there is a read before. */
  ghost predicate CalmOutcome(decode: Decoder, files: map<nat, seq<KvLine>>, past: seq<Kv>, prev: Option<Snapshot>,
                              a: Attempt) {
    && !a.Abort? && (prev.Some? ==> a.Done?)
    && (a.Again? ==> a.prev.Some? && UpToDate(decode, files, past, a.prev))
    && (a.Done? ==> UpToDate(decode, files, past, Some(a.snap)))
  }

  /** An undisturbed read shows the store's listing and equals an up-to-date read before it. */
  lemma CalmRead(decode: Decoder, files: map<nat, seq<KvLine>>, past: seq<Kv>, prev: Option<Snapshot>,
                 lines: seq<KvLine>, d: Collect)
    requires UpToDate(decode, files, past, prev) && StrictlyAscending(KeysOf(lines))
    requires Collected(decode, past, |past| - 1, |past| - 1, LineMap(lines), d)
    ensures RelistAgrees(past[|past| - 1], KeysOf(lines)) && Mirrors(decode, past[|past| - 1], lines)
    ensures prev.Some? ==> EqualToLast(files, prev, lines)
  {
    hide Collected, Mirrors, RelistAgrees, StrictlyAscending;
    QuietRead(decode, past, |past| - 1, lines, d);
    if prev.Some? { MirrorIsUnique(decode, past[|past| - 1], files[prev.value.path], lines); }
  }

  /** One attempt: read the namespace, start over if a key vanished meanwhile, else settle. */
  method TryOnce(e: Engine, fs: Spools, decode: Decoder, prev: Option<Snapshot>, cancelled: nat -> bool,
                 faults: nat -> bool,
                 ghost files0: map<nat, seq<KvLine>>, ghost lo: nat, ghost c: Collect)
      returns (a: Attempt, ghost d: Collect)
    requires fs.Valid() && lo < |e.past| && Holding(decode, files0, fs.files, e.past, lo, prev, c)
    requires forall p :: p in files0 ==> p in fs.files
    modifies e, fs
    ensures fs.Valid() && old(e.past) <= e.past && e.scans == old(e.scans) + 1
    ensures a.Abort? ==> fs.files == files0
    ensures Troubled(e, fs, old(e.calls), old(fs.ops), a)
    ensures a.Again? ==> Holding(decode, files0, fs.files, e.past, lo, a.prev, d)
    ensures a.Done? ==> Holds(decode, files0, fs.files, e.past, lo, a.snap, d.listAt)
    ensures e.Quiet() ==> e.past == old(e.past)
    ensures (&& Undisturbed(e, fs, cancelled) && (forall n :: !faults(n))
             && UpToDate(decode, old(fs.files), old(e.past), prev)) ==>
      CalmOutcome(decode, fs.files, e.past, prev, a)
  {
    hide Collected, Mirrors, RelistAgrees, PinnedAt, StrictlyAscending;
    ghost var past0, files1 := e.past, fs.files;
    var snap;
    snap, d := ReadKVSnapshot(e, fs, decode, cancelled);
    if snap.Err? {
      if prev.Some? { fs.Remove(prev.value.path); }
      return if snap.error == Vanished then Again(None) else Abort(snap.error), d;
    }
    a := Follow(e, fs, decode, prev, snap.value, faults, files0, files1, past0, lo, c, d);
  }

  /** What success leaves behind: one new spool file, pinned to an instant and relisted. */
  ghost predicate Holds(decode: Decoder, files0: map<nat, seq<KvLine>>, files: map<nat, seq<KvLine>>, past: seq<Kv>,
                        lo: nat,
                        snap: Snapshot, at: nat) {
    && past != [] && snap.path !in files0 && SpoolHolds(files, snap) && files == files0[snap.path := files[snap.path]]
    && PinnedAt(decode, past, lo, files[snap.path], at)
    && RelistAgrees(past[|past| - 1], snap.keys)
  }

  /** What settling leaves behind is what the loop holds, or what success holds. */
  lemma SettledHolds(decode: Decoder, files0: map<nat, seq<KvLine>>, files: map<nat, seq<KvLine>>, past: seq<Kv>,
                     later: seq<Kv>,
                     lo: nat, mid: nat, snap: Snapshot, lines: seq<KvLine>, a: Attempt, d: Collect)
    requires snap.path !in files0 && snap.keys == KeysOf(lines) && StrictlyAscending(snap.keys)
    requires past <= later && lo <= mid && past != [] && Collected(decode, past, mid, |past| - 1, LineMap(lines), d)
    requires Decided(decode, files0, files, later, lo, snap, lines, a, d.listAt)
    ensures a.Again? ==> Holding(decode, files0, files, later, lo, a.prev, d)
    ensures a.Done? ==> Holds(decode, files0, files, later, lo, a.snap, d.listAt)
  {
    hide Collected, RelistAgrees, PinnedAt, StrictlyAscending;
    CollectedLater(decode, past, later, mid, lo, |past| - 1, |later| - 1, LineMap(lines), d);
  }

  lemma Settled(decode: Decoder, files0: map<nat, seq<KvLine>>, files1: map<nat, seq<KvLine>>,
                files: map<nat, seq<KvLine>>,
                past0: seq<Kv>, past1: seq<Kv>, later: seq<Kv>, lo: nat, prev: Option<Snapshot>, snap: Snapshot,
                lines: seq<KvLine>, a: Attempt, c: Collect, d: Collect)
    requires past0 <= past1 <= later && lo < |past0| && snap.path !in files0 && snap.path !in files1
    requires snap.keys == KeysOf(lines) && StrictlyAscending(snap.keys)
    requires Holding(decode, files0, files1, past0, lo, prev, c)
    requires Collected(decode, past1, |past0| - 1, |past1| - 1, LineMap(lines), d)
    requires files == files1[snap.path := lines] - (if a.Abort? then {snap.path} else {}) - PathOf(prev)
    requires a.Again? ==> a.prev == Some(snap)
    requires a.Done? ==>
      a.snap == snap && EqualToLast(files1, prev, lines) && RelistAgrees(later[|later| - 1], snap.keys)
    ensures a.Abort? ==> files == files0
    ensures a.Again? ==> Holding(decode, files0, files, later, lo, a.prev, d)
    ensures a.Done? ==> Holds(decode, files0, files, later, lo, a.snap, d.listAt)
  {
    hide Collected, RelistAgrees, PinnedAt, StrictlyAscending;
    SettledDecides(decode, files0, files1, files, past0, past1, later, lo, prev, snap, lines, a, c, d);
    SettledHolds(decode, files0, files, past1, later, lo, |past0| - 1, snap, lines, a, d);
  }

  /** After a finished read. */
  method Follow(e: Engine, fs: Spools, decode: Decoder, prev: Option<Snapshot>, snap: Snapshot, faults: nat -> bool,
                ghost files0: map<nat, seq<KvLine>>, ghost files1: map<nat, seq<KvLine>>, ghost past0: seq<Kv>,
                ghost lo: nat, ghost c: Collect, ghost d: Collect)
      returns (a: Attempt)
    requires fs.Valid() && past0 <= e.past && lo < |past0| && SpoolHolds(fs.files, snap)
    requires snap.path !in files0 && snap.path !in files1 && fs.files == files1[snap.path := fs.files[snap.path]]
    requires Holding(decode, files0, files1, past0, lo, prev, c)
    requires Collected(decode, e.past, |past0| - 1, |e.past| - 1, LineMap(fs.files[snap.path]), d)
    modifies e`calls, e`past, fs`files
    ensures fs.Valid() && old(e.past) <= e.past
    ensures a.Abort? ==> fs.files == files0
    ensures a.Again? ==> Holding(decode, files0, fs.files, e.past, lo, a.prev, d)
    ensures a.Done? ==> Holds(decode, files0, fs.files, e.past, lo, a.snap, d.listAt)
    ensures Troubled(e, fs, old(e.calls), old(fs.ops), a)
    ensures e.Quiet() ==> e.past == old(e.past)
    ensures Smooth(e, faults) && past0 == old(e.past) && UpToDate(decode, files1, past0, prev) ==>
      CalmOutcome(decode, fs.files, e.past, prev, a)
  {
    hide Collected, Mirrors, RelistAgrees, PinnedAt, StrictlyAscending, LineMap, KeysOf;
    ghost var past1, lines := e.past, fs.files[snap.path];
    if past0 == past1 && UpToDate(decode, files1, past0, prev) { CalmRead(decode, files1, past1, prev, lines, d); }
    a := Settle(e, fs, prev, snap, faults);
    Settled(decode, files0, files1, fs.files, past0, past1, e.past, lo, prev, snap, lines, a, c, d);
  }

  ghost predicate Calm(e: Engine, fs: Spools, cancelled: nat -> nat -> bool, faults: nat -> nat -> bool) {
    e.Quiet() && fs.Reliable() && (forall k, n :: !cancelled(k)(n)) && (forall k, n :: !faults(k)(n))
  }

  lemma HeldBlobs(decode: Decoder, files0: map<nat, seq<KvLine>>, files: map<nat, seq<KvLine>>, past: seq<Kv>, lo: nat,
                  snap: Snapshot, at: nat)
    requires Holds(decode, files0, files, past, lo, snap, at)
    ensures past != [] && forall k :: "srcmap:" <= k && !("srcmap:releases:" <= k) && !("srcmap:relage:" <= k) ==>
      (k in past[|past| - 1].strings <==> k in snap.keys)
  {
    var kv := past[|past| - 1];
    forall k | "srcmap:" <= k && !("srcmap:releases:" <= k) && !("srcmap:relage:" <= k)
      ensures k in kv.strings <==> k in snap.keys
    {
      TypeIs(k);
      assert SameBlob(k, Listed(kv), SetOf(snap.keys));
    }
  }

  lemma UpToDateNamespace(decode: Decoder, files: map<nat, seq<KvLine>>, past: seq<Kv>, snap: Snapshot)
    requires UpToDate(decode, files, past, Some(snap))
    ensures snap.path in files && past != []
    ensures LineMap(files[snap.path]) == Covered(decode, past[|past| - 1])
    ensures IsNamespace(decode, past[|past| - 1], LineMap(files[snap.path]))
  {
    CoveredIsNamespace(decode, past[|past| - 1]);
  }

  lemma NothingHeld(decode: Decoder, files: map<nat, seq<KvLine>>, past: seq<Kv>, lo: nat, c: Collect)
    ensures Holding(decode, files, files, past, lo, None, c)
    ensures past != [] ==> UpToDate(decode, files, past, None)
  {
  }

  /** Without the loop's own spool file the directory is as it was. */
  lemma HeldAlone(decode: Decoder, files0: map<nat, seq<KvLine>>, files: map<nat, seq<KvLine>>, past: seq<Kv>, lo: nat,
                  prev: Option<Snapshot>, c: Collect)
    requires Holding(decode, files0, files, past, lo, prev, c)
    ensures forall p :: p in files0 ==> p in files
    ensures files - PathOf(prev) == files0
  {
  }

  /** stableKVSnapshot: read until two consecutive reads agree, at most five times. Exactly one
      new spool file is left on success, none on failure. `at` is the instant pinned. */
  method StableKVSnapshot(e: Engine, fs: Spools, decode: Decoder, cancelled: nat -> nat -> bool,
                          faults: nat -> nat -> bool)
      returns (r: Result<Snapshot, Failure>, ghost at: nat)
    requires e.past != [] && fs.Valid()
    modifies e, fs
    ensures fs.Valid() && old(e.past) <= e.past && e.scans <= old(e.scans) + 5
    ensures r.Err? ==> fs.files == old(fs.files)
    ensures r.Ok? ==> Holds(decode, old(fs.files), fs.files, e.past, |old(e.past)| - 1, r.value, at)
    // A failure ends it at once; a key that vanished does not; giving up takes five reads.
    ensures r.Ok? || r == Err(Churning) ==> e.Answered(old(e.calls)) && fs.Served(old(fs.ops))
    ensures r.Err? ==> r.error != Vanished && (r.error == Churning ==> e.scans == old(e.scans) + 5)
    // The blob keys of the store, when it ends, are those of the snapshot.
    ensures r.Ok? ==> forall k :: "srcmap:" <= k && !("srcmap:releases:" <= k) && !("srcmap:relage:" <= k) ==>
      (k in e.past[|e.past| - 1].strings <==> k in r.value.keys)
    ensures r.Ok? ==> forall k :: 0 < k < e.scans - old(e.scans) ==> !cancelled(k)(0)
    // Undisturbed, a dump succeeds, and what it holds is the namespace itself.
    ensures Calm(e, fs, cancelled, faults) ==>
      r.Ok? && LineMap(fs.files[r.value.path]) == Covered(decode, old(e.past)[|old(e.past)| - 1])
      && IsNamespace(decode, old(e.past)[|old(e.past)| - 1], LineMap(fs.files[r.value.path]))
  {
    hide UpToDate, Holding, Holds, IsNamespace, PinnedAt, RelistAgrees, Collected, Covered, Mirrors, StrictlyAscending,
         LineMap, KeysOf, TypeOf;
    ghost var lo := |e.past| - 1;
    at := lo;
    var prev: Option<Snapshot> := None;
    ghost var c := Collect(0, map[]);
    NothingHeld(decode, fs.files, e.past, lo, c);
    for attempt := 0 to ATTEMPTS
      invariant fs.Valid() && old(e.past) <= e.past && lo < |e.past| && e.scans == old(e.scans) + attempt
      invariant Holding(decode, old(fs.files), fs.files, e.past, lo, prev, c)
      invariant e.Answered(old(e.calls)) && fs.Served(old(fs.ops))
      invariant forall k :: 0 < k < attempt ==> !cancelled(k)(0)
      invariant Calm(e, fs, cancelled, faults) ==>
        e.past == old(e.past) && attempt <= 1 && (attempt == 1 ==> prev.Some?)
        && UpToDate(decode, fs.files, e.past, prev)
    {
      HeldAlone(decode, old(fs.files), fs.files, e.past, lo, prev, c);
      if attempt > 0 && cancelled(attempt)(0) {
        if prev.Some? { fs.Remove(prev.value.path); }
        return Err(Cancelled), at;
      }
      var a;
      a, c := TryOnce(e, fs, decode, prev, cancelled(attempt), faults(attempt), old(fs.files), lo, c);
      if a.Abort? { return Err(a.error), at; }
      if a.Done? {
        HeldBlobs(decode, old(fs.files), fs.files, e.past, lo, a.snap, c.listAt);
        if Calm(e, fs, cancelled, faults) { UpToDateNamespace(decode, fs.files, e.past, a.snap); }
        return Ok(a.snap), c.listAt;
      }
      prev := a.prev;
    }
    HeldAlone(decode, old(fs.files), fs.files, e.past, lo, prev, c);
    if prev.Some? { fs.Remove(prev.value.path); }
    r := Err(Churning);
  }
}
