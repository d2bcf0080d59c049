/** One read of the source-map namespace into a spool file (internal/backup/kvsrcmap.go:268-396). */
module KvRead {
  import opened Common
  import opened StringOrder
  import opened KvNamespace
  import opened KvCollect

  // ---------------------------------------------------------------- engine and spool files

  /** The store as a dump sees it: before call number n is answered, other clients take it
      through the states writers(n); the call may fail. `past` is every state it was in. */
  class Engine {
    const writers: nat -> seq<Kv>
    const fails: nat -> bool
    var calls: nat
    var past: seq<Kv>
    ghost var scans: nat   // full namespace reads begun

    constructor (kv: Kv, writers: nat -> seq<Kv>, fails: nat -> bool)
      ensures past == [kv] && scans == 0 && calls == 0 && this.writers == writers && this.fails == fails
    {
      this.writers, this.fails := writers, fails;
      calls, past, scans := 0, [kv], 0;
    }

    /** No other client writes and no call fails. */
    ghost predicate Quiet() { forall n :: writers(n) == [] && !fails(n) }

    /** None of the calls since number `from` failed. */
    ghost predicate Answered(from: nat)
      reads this`calls
    {
      from <= calls && forall n :: from <= n < calls ==> !fails(n)
    }

    method Call() returns (ok: bool)
      requires past != []
      modifies this`calls, this`past
      ensures past == old(past) + writers(old(calls)) && calls == old(calls) + 1 && (ok <==> !fails(old(calls)))
    {
      past := past + writers(calls);
      ok := !fails(calls);
      calls := calls + 1;
    }

    /** KV_KEYS: the listed keys, in no particular order. */
    method ListKeys() returns (r: Option<seq<string>>)
      requires past != []
      modifies this`calls, this`past
      ensures old(past) <= past
      ensures r.Some? ==> SetOf(r.value) == Listed(past[|past| - 1]) && NoRepeats(r.value)
      ensures past == old(past) + writers(old(calls)) && calls == old(calls) + 1
      ensures r.Some? <==> !fails(old(calls))
    {
      var ok := Call();
      if !ok { return None; }
      var rest, keys := Listed(past[|past| - 1]), [];
      while rest != {}
        invariant forall k :: k in Listed(past[|past| - 1]) <==> k in keys || k in rest
        invariant NoRepeats(keys) && SetOf(keys) !! rest
        decreases |rest|
      {
        var k :| k in rest;
        assert k !in SetOf(keys);
        rest, keys := rest - {k}, keys + [k];
      }
      r := Some(keys);
    }

    /** One key's content in its type: Err when the query fails. */
    method ReadKey(key: string) returns (r: Result<Option<Content>, Failure>)
      requires past != []
      modifies this`calls, this`past
      ensures old(past) <= past
      ensures r.Ok? ==> r.value == Observe(past[|past| - 1], key)
      ensures past == old(past) + writers(old(calls)) && calls == old(calls) + 1
      ensures (r.Ok? <==> !fails(old(calls))) && (r.Err? ==> r.error == QueryFailed)
    {
      var ok := Call();
      r := if ok then Ok(Observe(past[|past| - 1], key)) else Err(QueryFailed);
    }
  }

  datatype Failure = QueryFailed | Vanished | SpoolFailed | Cancelled | Churning

  /** The temporary directory. Any file operation may fail; a failed creation leaves nothing. */
  class Spools {
    const fails: nat -> bool
    var ops: nat
    var files: map<nat, seq<KvLine>>
    var next: nat

    ghost predicate Valid()
      reads this
    {
      forall p :: p in files ==> p < next
    }

    ghost predicate Reliable() { forall n :: !fails(n) }

    /** None of the file operations since number `from` failed. */
    ghost predicate Served(from: nat)
      reads this`ops
    {
      from <= ops && forall n :: from <= n < ops ==> !fails(n)
    }

    method Create() returns (r: Option<nat>)
      requires Valid()
      modifies this
      ensures Valid() && ops == old(ops) + 1 && (r.Some? <==> !fails(old(ops)))
      ensures r.None? ==> files == old(files)
      ensures r.Some? ==> r.value !in old(files) && files == old(files)[r.value := []]
    {
      var failed := fails(ops);
      ops := ops + 1;
      if failed { return None; }
      r := Some(next);
      files, next := files[next := []], next + 1;
    }

    method Append(path: nat, x: KvLine) returns (ok: bool)
      requires Valid() && path in files
      modifies this`ops, this`files
      ensures Valid() && ops == old(ops) + 1 && (ok <==> !fails(old(ops)))
      ensures files == if ok then old(files)[path := old(files)[path] + [x]] else old(files)
    {
      ok := !fails(ops);
      ops := ops + 1;
      if ok { files := files[path := files[path] + [x]]; }
    }

    method Flush() returns (ok: bool)
      requires Valid()
      modifies this`ops
      ensures Valid() && ops == old(ops) + 1 && (ok <==> !fails(old(ops)))
    {
      ok := !fails(ops);
      ops := ops + 1;
    }

    method Remove(path: nat)
      requires Valid()
      modifies this`files
      ensures Valid() && files == old(files) - {path}
    {
      files := files - {path};
    }
  }

  /** equalKVSpools: fixed buffers of 64 KiB, read in step from both files. Generic in what a
      file is made of; the source compares bytes. `fails(k)` makes the k-th pair of reads fail. */
  const BUFFER := 65536

  method EqualSpools<T(==)>(a: seq<T>, b: seq<T>, fails: nat -> bool) returns (r: Result<bool, Failure>)
    ensures r.Ok? ==> (r.value <==> a == b)
    ensures (forall k :: !fails(k)) ==> r.Ok?
    ensures (fails(0) ==> r.Err?) && (r.Err? ==> r.error == SpoolFailed)
  {
    var i, k := 0, 0;
    while true
      invariant i <= |a| && i <= |b| && a[..i] == b[..i] && (k > 0 ==> !fails(0))
      decreases |a| - i
    {
      if fails(k) { return Err(SpoolFailed); }
      var na := if |a| - i < BUFFER then |a| - i else BUFFER;
      var nb := if |b| - i < BUFFER then |b| - i else BUFFER;
      var ba, bb := a[i..i + na], b[i..i + nb];
      if na != nb || ba != bb {
        return Ok(false);
      }
      assert a[..i + na] == a[..i] + ba && b[..i + nb] == b[..i] + bb;
      if na < BUFFER || nb < BUFFER {
        // one side ended inside this buffer; both did, and at the same place
        assert a[..i + na] == a && b[..i + nb] == b;
        return Ok(true);
      }
      i, k := i + na, k + 1;
    }
  }

  // ---------------------------------------------------------------- one read of the namespace

  /** srcmapSites: the distinct sites the listed keys name. */
  method SrcmapSites(decode: Decoder, blobKeys: seq<string>) returns (sites: set<string>)
    ensures sites == SitesOf(decode, SetOf(blobKeys))
    ensures (forall k :: k in blobKeys ==> NS <= k) ==> forall s :: s in sites <==> Named(decode, SetOf(blobKeys), s)
  {
    if forall k :: k in blobKeys ==> NS <= k { SitesAreNamed(decode, SetOf(blobKeys)); }
    sites := {};
    for i := 0 to |blobKeys|
      invariant sites == SitesOf(decode, SetOf(blobKeys[..i]))
    {
      var site := SiteOf(decode, blobKeys[i]);
      SitesOfAdd(decode, SetOf(blobKeys[..i]), blobKeys[i]);
      SetOfAppend(blobKeys[..i], [blobKeys[i]]);
      assert blobKeys[..i + 1] == blobKeys[..i] + [blobKeys[i]] && SetOf([blobKeys[i]]) == {blobKeys[i]};
      if site.Some? { sites := sites + {site.value}; }
    }
    assert blobKeys[..|blobKeys|] == blobKeys;
  }

  /** The listed keys and the index keys of these sites. */
  ghost predicate KeysFor(blobKeys: seq<string>, sites: set<string>, keys: seq<string>) {
    SetOf(keys) == SetOf(blobKeys) + IndexKeys(sites)
  }

  lemma NoIndexKeys(blobKeys: seq<string>)
    ensures KeysFor(blobKeys, {}, blobKeys)
  {
    assert IndexKeys({}) == {};
  }

  lemma KeysForMore(blobKeys: seq<string>, sites: set<string>, keys: seq<string>, s: string)
    requires KeysFor(blobKeys, sites, keys)
    ensures KeysFor(blobKeys, sites + {s}, keys + [ReleasesKey(s), RelageKey(s)])
  {
    hide IndexKeys;
    IndexKeysAdd(sites, s);
    SetOfAppend(keys, [ReleasesKey(s), RelageKey(s)]);
  }

  lemma KeysForAll(decode: Decoder, blobKeys: seq<string>, keys: seq<string>)
    requires KeysFor(blobKeys, SitesOf(decode, SetOf(blobKeys)), keys)
    ensures Ascending(Sort(keys)) && SetOf(Sort(keys)) == Visited(decode, SetOf(blobKeys))
  {
    hide SitesOf, IndexKeys, Ascending, Sort;
    SortKeeps(keys);
    SortMembers(keys);
  }

  lemma KeysAreVisited(decode: Decoder, blobKeys: seq<string>, keys: seq<string>)
    requires SetOf(keys) == Visited(decode, SetOf(blobKeys))
    ensures (forall k :: k in blobKeys ==> NS <= k) ==> forall k :: k in keys <==>
      k in blobKeys || exists s :: Named(decode, SetOf(blobKeys), s)
                                   && (k == "srcmap:releases:" + s || k == "srcmap:relage:" + s)
  {
    hide Visited, Named;
    if forall k :: k in blobKeys ==> NS <= k { VisitedIs(decode, SetOf(blobKeys)); }
    assert forall k :: k in keys <==> k in SetOf(keys);
    assert forall k :: k in blobKeys <==> k in SetOf(blobKeys);
  }

  /** The keys one read visits, sorted as sort.Strings does. */
  method KeysToVisit(decode: Decoder, blobKeys: seq<string>) returns (keys: seq<string>)
    ensures Ascending(keys) && SetOf(keys) == Visited(decode, SetOf(blobKeys))
    ensures (forall k :: k in blobKeys ==> NS <= k) ==> forall k :: k in keys <==>
      k in blobKeys || exists s :: Named(decode, SetOf(blobKeys), s)
                                   && (k == "srcmap:releases:" + s || k == "srcmap:relage:" + s)
  {
    hide SitesOf, IndexKeys, Ascending, Sort, KeysFor, Named, Visited;
    var sites := SrcmapSites(decode, blobKeys);
    var rest := sites;
    keys := blobKeys;
    ghost var done: set<string> := {};
    NoIndexKeys(blobKeys);
    while rest != {}
      invariant done + rest == sites && KeysFor(blobKeys, done, keys)
      decreases |rest|
    {
      var s :| s in rest;
      KeysForMore(blobKeys, done, keys, s);
      rest, keys, done := rest - {s}, keys + [ReleasesKey(s), RelageKey(s)], done + {s};
    }
    assert done == sites;
    KeysForAll(decode, blobKeys, keys);
    keys := Sort(keys);
    KeysAreVisited(decode, blobKeys, keys);
  }

  /** What is known while the sorted keys are visited one by one: `m` and `lines` hold the
      readings kept so far, `readAt` when they were taken. */
  ghost predicate Scanned(past: seq<Kv>, listAt: nat, seen: seq<string>, lines: seq<KvLine>, readAt: map<string, nat>) {
    && StrictlyAscending(KeysOf(lines))
    && (forall k :: k in KeysOf(lines) ==> k in readAt)
    && (forall k :: k in readAt <==> k in seen)
    && listAt < |past|
    && (forall k :: k in readAt ==> ReadAs(past, listAt, |past| - 1, LineMap(lines), readAt[k], k))
  }

  lemma ScannedLater(past: seq<Kv>, later: seq<Kv>, listAt: nat, seen: seq<string>, lines: seq<KvLine>,
                     readAt: map<string, nat>)
    requires Scanned(past, listAt, seen, lines, readAt) && past <= later
    ensures Scanned(later, listAt, seen, lines, readAt)
  {
    forall k | k in readAt
      ensures ReadAs(later, listAt, |later| - 1, LineMap(lines), readAt[k], k)
    {
      assert ReadAs(past, listAt, |past| - 1, LineMap(lines), readAt[k], k);
    }
  }

  /** A sorted list of keys meets equal keys next to each other. */
  lemma SeenOrLast(keys: seq<string>, i: nat, lines: seq<KvLine>)
    requires Ascending(keys) && i < |keys| && StrictlyAscending(KeysOf(lines))
    requires forall k :: k in KeysOf(lines) ==> k in keys[..i]
    ensures keys[i] in KeysOf(lines) <==> lines != [] && lines[|lines| - 1].key == keys[i]
    ensures keys[i] !in KeysOf(lines) ==> StrictlyAscending(KeysOf(lines) + [keys[i]])
  {
    var ks, key := KeysOf(lines), keys[i];
    forall j | 0 <= j < |ks|
      ensures Le(ks[j], key)
    {
      assert ks[j] in keys[..i];
    }
    if key in ks {
      var j :| 0 <= j < |ks| && ks[j] == key;
      if j < |ks| - 1 {
        assert Less(ks[j], ks[|ks| - 1]);
        Antisymmetric(ks[j], ks[|ks| - 1]);
      }
    }
  }

  /** An index without members, or a key read before, adds no line. */
  lemma ScanSkips(past: seq<Kv>, listAt: nat, seen: seq<string>, lines: seq<KvLine>, readAt: map<string, nat>,
                  key: string)
    requires Scanned(past, listAt, seen, lines, readAt)
    requires key in KeysOf(lines) || (Observe(past[|past| - 1], key).None? && TypeOf(key) != StringKey)
    ensures Scanned(past, listAt, seen + [key], lines,
                    if key in KeysOf(lines) then readAt else readAt[key := |past| - 1])
  {
    LineMapKeys(lines);
  }

  lemma ScanAdds(past: seq<Kv>, listAt: nat, seen: seq<string>, lines: seq<KvLine>, readAt: map<string, nat>,
                 key: string, x: Content)
    requires Scanned(past, listAt, seen, lines, readAt)
    requires key !in KeysOf(lines) && StrictlyAscending(KeysOf(lines) + [key])
    requires Observe(past[|past| - 1], key) == Some(x)
    ensures Scanned(past, listAt, seen + [key], lines + [KvLine(key, x)], readAt[key := |past| - 1])
  {
    var longer, at := lines + [KvLine(key, x)], readAt[key := |past| - 1];
    LineMapAppend(lines, KvLine(key, x));
    forall k | k in at
      ensures ReadAs(past, listAt, |past| - 1, LineMap(longer), at[k], k)
    {
      if k != key { assert ReadAs(past, listAt, |past| - 1, LineMap(lines), readAt[k], k); }
    }
  }

  function NextLines(lines: seq<KvLine>, key: string, x: Option<Content>): seq<KvLine> {
    if x.Some? then lines + [KvLine(key, x.value)] else lines
  }

  function NextReadAt(readAt: map<string, nat>, lines: seq<KvLine>, key: string, x: Option<Content>,
                      t: nat): map<string, nat> {
    if x.None? && key in KeysOf(lines) then readAt else readAt[key := t]
  }

  /** One key of the scan, whichever way it goes: `x` is what was kept for it. */
  lemma ScanStep(before: seq<Kv>, past: seq<Kv>, listAt: nat, keys: seq<string>, i: nat, lines: seq<KvLine>,
                 readAt: map<string, nat>, x: Option<Content>)
    requires before <= past && Ascending(keys) && i < |keys|
    requires Scanned(before, listAt, keys[..i], lines, readAt)
    requires x.Some? ==> x == Observe(past[|past| - 1], keys[i]) && (lines == [] || lines[|lines| - 1].key != keys[i])
    requires x.None? ==> (lines != [] && lines[|lines| - 1].key == keys[i])
                         || (Observe(past[|past| - 1], keys[i]).None? && TypeOf(keys[i]) != StringKey)
    ensures Scanned(past, listAt, keys[..i + 1], NextLines(lines, keys[i], x),
                    NextReadAt(readAt, lines, keys[i], x, |past| - 1))
    ensures KeysOf(NextLines(lines, keys[i], x)) == if x.Some? then KeysOf(lines) + [keys[i]] else KeysOf(lines)
  {
    ScannedLater(before, past, listAt, keys[..i], lines, readAt);
    SeenOrLast(keys, i, lines);
    assert keys[..i + 1] == keys[..i] + [keys[i]];
    if x.Some? {
      ScanAdds(past, listAt, keys[..i], lines, readAt, keys[i], x.value);
      LineMapAppend(lines, KvLine(keys[i], x.value));
    } else {
      ScanSkips(past, listAt, keys[..i], lines, readAt, keys[i]);
    }
  }

  lemma ScanDone(decode: Decoder, past: seq<Kv>, lo: nat, c: Collect, seen: seq<string>, lines: seq<KvLine>)
    requires Scanned(past, c.listAt, seen, lines, c.readAt) && lo <= c.listAt
    requires SetOf(seen) == Visited(decode, Listed(past[c.listAt]))
    ensures Collected(decode, past, lo, |past| - 1, LineMap(lines), c)
  {
    LineMapKeys(lines);
    assert c.readAt.Keys == SetOf(seen);
  }

  /** A finished read: its keys, and the spool file that holds its lines. */
  datatype Snapshot = Snapshot(keys: seq<string>, path: nat)

  ghost predicate SpoolHolds(files: map<nat, seq<KvLine>>, snap: Snapshot) {
    snap.path in files && snap.keys == KeysOf(files[snap.path]) && StrictlyAscending(snap.keys)
  }

  /** Nothing goes wrong and nobody else writes. */
  ghost predicate Undisturbed(e: Engine, fs: Spools, cancelled: nat -> bool) {
    e.Quiet() && fs.Reliable() && forall n :: !cancelled(n)
  }

  ghost predicate BlobsPresent(kv: Kv, keys: seq<string>) {
    forall k :: k in keys && TypeOf(k) == StringKey ==> Observe(kv, k).Some?
  }

  /** How a part of a read ended: a failed call or file operation ends it at once as such; a key that
      vanished, or a cancellation, is told apart from that. */
  ghost predicate Trouble(e: Engine, fs: Spools, calls: nat, ops: nat, err: Option<Failure>)
    reads e`calls, fs`ops
  {
    && calls <= e.calls && ops <= fs.ops && err != Some(Churning)
    && (err == Some(QueryFailed) <==> !e.Answered(calls)) && (err == Some(SpoolFailed) <==> !fs.Served(ops))
  }

  /** Read one key and spool its line, unless there is nothing to archive for it. */
  method VisitKey(e: Engine, fs: Spools, p: nat, key: string, repeated: bool)
      returns (r: Result<Option<Content>, Failure>)
    requires e.past != [] && fs.Valid() && p in fs.files
    modifies e`calls, e`past, fs`ops, fs`files
    ensures fs.Valid() && old(e.past) <= e.past
    ensures r.Ok? && r.value.Some? ==> !repeated && r.value == Observe(e.past[|e.past| - 1], key)
    ensures r.Ok? ==> fs.files == old(fs.files)[p := NextLines(old(fs.files[p]), key, r.value)]
    ensures r.Ok? && r.value.None? ==>
      repeated || (Observe(e.past[|e.past| - 1], key).None? && TypeOf(key) != StringKey)
    ensures r.Err? ==> fs.files == old(fs.files)
    ensures Trouble(e, fs, old(e.calls), old(fs.ops), if r.Ok? then None else Some(r.error))
    ensures r != Err(Cancelled)
    ensures (&& e.Quiet() && fs.Reliable()
             && (TypeOf(key) == StringKey ==> Observe(old(e.past)[|old(e.past)| - 1], key).Some?)) ==> r.Ok?
    ensures e.Quiet() ==> e.past == old(e.past)
  {
    r := e.ReadKey(key);
    if r.Err? { return; }
    if r.value.None? {
      if TypeOf(key) == StringKey { return Err(Vanished); }
      return;
    }
    if repeated { return Ok(None); }
    var ok := fs.Append(p, KvLine(key, r.value.value));
    if !ok { return Err(SpoolFailed); }
  }

  lemma VisitedBlobsPresent(decode: Decoder, kv: Kv, keys: seq<string>)
    requires SetOf(keys) == Visited(decode, Listed(kv))
    ensures BlobsPresent(kv, keys)
  {
    forall k | k in keys && TypeOf(k) == StringKey
      ensures Observe(kv, k).Some?
    {
      assert k in SetOf(keys);
      NotAnIndexKey(decode, k, Listed(kv));
    }
  }

  /** readKVSnapshot: list, derive the index keys, read every key in order into a spool file.
      On any error the spool file is gone again. */
  method ReadKVSnapshot(e: Engine, fs: Spools, decode: Decoder, cancelled: nat -> bool)
      returns (r: Result<Snapshot, Failure>, ghost c: Collect)
    requires e.past != [] && fs.Valid()
    modifies e, fs
    ensures fs.Valid() && old(e.past) <= e.past && e.scans == old(e.scans) + 1
    ensures r.Err? ==> fs.files == old(fs.files)
    ensures r.Ok? ==> r.value.path !in old(fs.files) && SpoolHolds(fs.files, r.value)
    ensures r.Ok? ==> fs.files == old(fs.files)[r.value.path := fs.files[r.value.path]]
    ensures r.Ok? ==> Collected(decode, e.past, |old(e.past)| - 1, |e.past| - 1, LineMap(fs.files[r.value.path]), c)
    ensures Trouble(e, fs, old(e.calls), old(fs.ops), if r.Ok? then None else Some(r.error))
    ensures Undisturbed(e, fs, cancelled) ==> r.Ok?
    ensures e.Quiet() ==> e.past == old(e.past)
  {
    hide Scanned, Ascending, Visited, Listed, LineMap, StrictlyAscending;
    c := Collect(0, map[]);
    e.scans := e.scans + 1;
    var listed := e.ListKeys();
    if listed.None? { return Err(QueryFailed), c; }
    ghost var listAt := |e.past| - 1;
    var keys := KeysToVisit(decode, listed.value);
    VisitedBlobsPresent(decode, e.past[listAt], keys);
    ghost var lines;
    r, c, lines := SpoolKeys(e, fs, keys, cancelled, listAt);
    if r.Ok? { ScanDone(decode, e.past, |old(e.past)| - 1, c, keys, lines); }
  }

  lemma AddThenRemove<V>(m: map<nat, V>, p: nat, v: V)
    requires p !in m
    ensures m[p := v] - {p} == m
  {
  }

  /** The spool file's life: created, filled, flushed, and removed on any error. */
  method SpoolKeys(e: Engine, fs: Spools, keys: seq<string>, cancelled: nat -> bool, ghost listAt: nat)
      returns (r: Result<Snapshot, Failure>, ghost c: Collect, ghost lines: seq<KvLine>)
    requires listAt < |e.past| && fs.Valid() && Ascending(keys)
    modifies e`calls, e`past, fs
    ensures fs.Valid() && old(e.past) <= e.past
    ensures r.Err? ==> fs.files == old(fs.files)
    ensures r.Ok? ==> r.value.path !in old(fs.files) && fs.files == old(fs.files)[r.value.path := lines]
    ensures r.Ok? ==> r.value.keys == KeysOf(lines) && c.listAt == listAt
    ensures r.Ok? ==> Scanned(e.past, listAt, keys, lines, c.readAt)
    ensures Trouble(e, fs, old(e.calls), old(fs.ops), if r.Ok? then None else Some(r.error))
    ensures Undisturbed(e, fs, cancelled) && BlobsPresent(old(e.past)[|old(e.past)| - 1], keys) ==> r.Ok?
    ensures e.Quiet() ==> e.past == old(e.past)
  {
    c, lines := Collect(listAt, map[]), [];
    var path := fs.Create();
    if path.None? { return Err(SpoolFailed), c, lines; }
    var p := path.value;
    var err, snapKeys, readAt := FillSpool(e, fs, p, keys, cancelled, listAt);
    AddThenRemove(old(fs.files), p, fs.files[p]);
    if err.Some? {
      fs.Remove(p);
      return Err(err.value), c, lines;
    }
    c, lines := Collect(listAt, readAt), fs.files[p];
    r := Ok(Snapshot(snapKeys, p));
  }

  /** Every key, and the file flushed behind them. */
  method FillSpool(e: Engine, fs: Spools, p: nat, keys: seq<string>, cancelled: nat -> bool, ghost listAt: nat)
      returns (err: Option<Failure>, snapKeys: seq<string>, ghost readAt: map<string, nat>)
    requires listAt < |e.past| && fs.Valid() && p in fs.files && fs.files[p] == [] && Ascending(keys)
    modifies e`calls, e`past, fs`ops, fs`files
    ensures fs.Valid() && old(e.past) <= e.past
    ensures p in fs.files && fs.files == old(fs.files)[p := fs.files[p]]
    ensures err.None? ==> snapKeys == KeysOf(fs.files[p]) && Scanned(e.past, listAt, keys, fs.files[p], readAt)
    ensures Trouble(e, fs, old(e.calls), old(fs.ops), err)
    ensures Undisturbed(e, fs, cancelled) && BlobsPresent(old(e.past)[|old(e.past)| - 1], keys) ==> err.None?
    ensures e.Quiet() ==> e.past == old(e.past)
  {
    err, snapKeys, readAt := ReadAllKeys(e, fs, p, keys, cancelled, listAt);
    if err.None? {
      var flushed := fs.Flush();
      if !flushed { err := Some(SpoolFailed); }
    }
  }

  /** One turn of the loop over the keys. */
  method VisitAt(e: Engine, fs: Spools, p: nat, keys: seq<string>, i: nat, snapKeys: seq<string>,
                 ghost listAt: nat, ghost readAt: map<string, nat>)
      returns (err: Option<Failure>, snapKeys': seq<string>, ghost readAt': map<string, nat>)
    requires listAt < |e.past| && fs.Valid() && p in fs.files && Ascending(keys) && i < |keys|
    requires snapKeys == KeysOf(fs.files[p]) && Scanned(e.past, listAt, keys[..i], fs.files[p], readAt)
    modifies e`calls, e`past, fs`ops, fs`files
    ensures fs.Valid() && old(e.past) <= e.past
    ensures p in fs.files && fs.files == old(fs.files)[p := fs.files[p]]
    ensures err.None? ==>
      snapKeys' == KeysOf(fs.files[p]) && Scanned(e.past, listAt, keys[..i + 1], fs.files[p], readAt')
    ensures Trouble(e, fs, old(e.calls), old(fs.ops), err) && err != Some(Cancelled)
    ensures e.Quiet() && fs.Reliable() && BlobsPresent(old(e.past)[|old(e.past)| - 1], keys) ==> err.None?
    ensures e.Quiet() ==> e.past == old(e.past)
  {
    hide Scanned, Ascending, Observe;
    ghost var before, lines := e.past, fs.files[p];
    var x := VisitKey(e, fs, p, keys[i], |snapKeys| > 0 && snapKeys[|snapKeys| - 1] == keys[i]);
    if x.Err? { return Some(x.error), snapKeys, readAt; }
    ScanStep(before, e.past, listAt, keys, i, lines, readAt, x.value);
    snapKeys' := if x.value.Some? then snapKeys + [keys[i]] else snapKeys;
    readAt' := NextReadAt(readAt, lines, keys[i], x.value, |e.past| - 1);
    err := None;
  }

  /** The loop over the keys. */
  method ReadAllKeys(e: Engine, fs: Spools, p: nat, keys: seq<string>, cancelled: nat -> bool, ghost listAt: nat)
      returns (err: Option<Failure>, snapKeys: seq<string>, ghost readAt: map<string, nat>)
    requires listAt < |e.past| && fs.Valid() && p in fs.files && fs.files[p] == [] && Ascending(keys)
    modifies e`calls, e`past, fs`ops, fs`files
    ensures fs.Valid() && old(e.past) <= e.past
    ensures p in fs.files && fs.files == old(fs.files)[p := fs.files[p]]
    ensures err.None? ==> snapKeys == KeysOf(fs.files[p]) && Scanned(e.past, listAt, keys, fs.files[p], readAt)
    ensures Trouble(e, fs, old(e.calls), old(fs.ops), err)
    ensures err.None? ==> forall i :: 0 <= i < |keys| ==> !cancelled(i)
    ensures Undisturbed(e, fs, cancelled) && BlobsPresent(old(e.past)[|old(e.past)| - 1], keys) ==> err.None?
    ensures e.Quiet() ==> e.past == old(e.past)
  {
    err, snapKeys, readAt := None, [], map[];
    for i := 0 to |keys|
      invariant fs.Valid() && old(e.past) <= e.past && listAt < |e.past|
      invariant e.Quiet() ==> e.past == old(e.past)
      invariant Trouble(e, fs, old(e.calls), old(fs.ops), None) && forall j :: 0 <= j < i ==> !cancelled(j)
      invariant p in fs.files && fs.files == old(fs.files)[p := fs.files[p]]
      invariant err.None? && snapKeys == KeysOf(fs.files[p]) && Scanned(e.past, listAt, keys[..i], fs.files[p], readAt)
    {
      if cancelled(i) { return Some(Cancelled), snapKeys, readAt; }
      err, snapKeys, readAt := VisitAt(e, fs, p, keys, i, snapKeys, listAt, readAt);
      if err.Some? { return; }
    }
    assert keys[..|keys|] == keys;
    err := None;
  }
}
