/** What a restored dump shows: every table as it stood when the engine granted the lease, and the
    source-map namespace as it stood at one instant of its own (internal/backup/backup.go:246-354,
    lease.go:59-154, kvsrcmap.go:171-234, restore.go:72-103). */
module DumpMoment {
  import opened Common
  import opened DumpLease
  import opened StringOrder
  import opened KvNamespace
  import opened KvCollect
  import opened KvRead
  import opened KvSnapshot
  import opened Archive
  import opened ArchiveCheck
  import opened ArchiveDump
  import opened ArchiveRestore
  import opened ArchiveApply
  import opened ArchiveTrip

  // ---------------------------------------------------------------- the tables

  /** What a reader finds in each table. */
  type Tabular = string -> TableRead

  /** While the lease runs by the engine's clock, the writes of other sessions wait. */
  ghost predicate Gated(sql: nat -> Tabular, d: LeasedDump, timeout: int) {
    forall at: nat, t: string :: d.granted <= at && d.engine(at) < d.engine(d.granted) + timeout ==>
      sql(at)(t) == sql(d.granted)(t)
  }

  /** Table i was read at instant readAt[i]. */
  ghost predicate ReadsOf(src: Source, sql: nat -> Tabular, d: LeasedDump) {
    && |d.readAt| == |src.tables|
    && forall i :: 0 <= i < |src.tables| && !src.table(src.tables[i]).ReadFailed? ==>
         src.table(src.tables[i]) == sql(d.readAt[i])(src.tables[i])
  }

  /** A dump under a lease that the engine honours, on clocks that part by no more than the margin. */
  ghost predicate Leased(src: Source, sql: nat -> Tabular) {
    && src.lease.Some? && Orderly(src.lease.value) && GainsAtMost(src.lease.value, MARGIN)
    && Gated(sql, src.lease.value, src.timeout) && ReadsOf(src, sql, src.lease.value)
  }

  /** Everything read, inside the window: every table as it stood at the grant. */
  lemma ReadsAreOneMoment(src: Source, sql: nat -> Tabular)
    requires Leased(src, sql) && AllRead(src)
    ensures forall t :: t in src.tables ==> src.table(t) == sql(src.lease.value.granted)(t)
  {
    var d := src.lease.value;
    LeasedDumpIsOneMoment(d, src.timeout);
    forall t | t in src.tables
      ensures src.table(t) == sql(d.granted)(t)
    {
      var i :| 0 <= i < |src.tables| && src.tables[i] == t;
      assert d.replied <= d.readAt[i] && d.granted <= d.readAt[i];
      assert d.engine(d.readAt[i]) < d.engine(d.granted) + src.timeout;
    }
  }

  /** MAIN RESULT. Whatever failed during a leased dump, and wherever its stream was cut: what is
      accepted has every read inside the engine's lease, and every table as it stood at the grant. */
  lemma AcceptedIsOneMoment(src: Source, sql: nat -> Tabular, es: seq<Entry>, n: nat, intact: bool)
    requires Honest(src, es) && n <= |es| && Accepted(src.tables, TarArchive(es[..n], intact))
    requires Leased(src, sql)
    ensures OneMoment(src.lease.value, src.timeout)
    ensures forall t :: t in src.tables ==> src.table(t) == sql(src.lease.value.granted)(t)
  {
    AcceptedIsWhole(src, es, n, intact);
    LeasedDumpIsOneMoment(src.lease.value, src.timeout);
    ReadsAreOneMoment(src, sql);
  }

  // ---------------------------------------------------------------- the namespace

  /** The store went from `a` to `b` by gaining the namespace `ns`, as far as a restore can see. */
  ghost predicate Gained(a: Kv, b: Kv, ns: map<string, Content>) {
    && SameElsewhere(a, b, ns.Keys)
    && forall k :: k in ns ==> Toward(At(a, k), At(b, k), ns[k]) && Passes(At(b, k), ns[k])
  }

  lemma LinesGained(a: Kv, b: Kv, lines: seq<KvLine>)
    requires KvMoved(a, b, lines) && KvPasses(b, lines) && NoRepeats(KeysOf(lines))
    ensures Gained(a, b, LineMap(lines))
  {
    LineMapKeys(lines);
    assert LineMap(lines).Keys == SetOf(KeysOf(lines));
    forall k | k in LineMap(lines)
      ensures Toward(At(a, k), At(b, k), LineMap(lines)[k]) && Passes(At(b, k), LineMap(lines)[k])
    {
      var i :| 0 <= i < |KeysOf(lines)| && KeysOf(lines)[i] == k;
      LineFound(lines, i);
    }
  }

  /** What a restore of a pinned section leaves behind. */
  ghost predicate NamespaceBack(decode: Decoder, past: seq<Kv>, lo: nat, at: nat, a: Kv, b: Kv) {
    exists lines :: PinnedAt(decode, past, lo, lines, at) && Gained(a, b, LineMap(lines))
  }

  /** ... which is the covered namespace at the pinned instant, if no key returned meanwhile. */
  lemma NamespaceIsOneMoment(decode: Decoder, past: seq<Kv>, lo: nat, at: nat, a: Kv, b: Kv)
    requires NamespaceBack(decode, past, lo, at, a, b) && OwnNamesSince(past, lo) && NoReturn(past, lo)
    ensures lo <= at < |past| && Gained(a, b, Covered(decode, past[at]))
  {
    var lines :| PinnedAt(decode, past, lo, lines, at) && Gained(a, b, LineMap(lines));
  }

  // ---------------------------------------------------------------- there and back

  /** The tables of a dump are those of its grant, whatever its key-value section. */
  lemma TablesOfMoment(src: Source, whole: Source, sql: nat -> Tabular)
    requires whole == src.(kv := whole.kv) && Leased(src, sql) && AllRead(whole)
    ensures forall t :: t in src.tables ==> whole.table(t) == sql(src.lease.value.granted)(t)
    ensures forall t :: t in src.tables ==> RowsAt(whole, t) == RowsHeld(sql(src.lease.value.granted)(t))
  {
    ReadsAreOneMoment(whole, sql);
  }

  function RowsHeld(held: TableRead): seq<Row> { if held.Rows? then held.rows else [] }

  /** The tables were read inside the lease, if there is one; every line of theirs, and of the namespace,
      is within the limits of a restore. */
  ghost predicate Fitting(src: Source, decode: Decoder, kv: Kv) {
    && LeaseOk(src) && (forall t :: t in src.tables ==> !src.table(t).ReadFailed?)
    && (forall t :: t in src.tables && src.table(t).Rows? ==> RowsRestorable(src.table(t).rows, src.rowSize))
    && (forall lines :: Mirrors(decode, kv, lines) ==> KvRestorable(lines, src.kvSize))
  }

  lemma FittingIsWhole(src: Source, decode: Decoder, kv: Kv, lines: seq<KvLine>, whole: Source)
    requires Fitting(src, decode, kv) && whole == src.(kv := Some(lines))
    requires StrictlyAscending(KeysOf(lines)) && LineMap(lines) == Covered(decode, kv)
    ensures AllRead(whole) && Restorable(whole)
  {
    assert Mirrors(decode, kv, lines);
  }

  /** MAIN RESULT. The namespace is read until two reads agree, the dump is taken under its lease and
      cut anywhere, and what is left is restored. A restore that reports success leaves every table
      as it stood when the lease was granted, and the namespace as two equal reads showed it, pinned
      to instant `at`. Anything else that is refused is refused with nothing written. */
  method BackUpAndRestore(e: Engine, fs: Spools, decode: Decoder, cancelled: nat -> nat -> bool,
                          faults: nat -> nat -> bool,
                          src: Source, w: TarWriter, db: Target, cut: nat, intact: bool, ghost sql: nat -> Tabular)
      returns (dumped: bool, r: Outcome, ghost at: nat)
    requires e.past != [] && fs.Valid() && w.entries == [] && !w.broken
    requires NoRepeats(src.tables) && KV_RESULT !in src.tables
    modifies e, fs, w, db`ops, db`tables, db`kv
    ensures old(e.past) <= e.past
    ensures r.Restored? && Leased(src, sql) ==> forall t :: t in src.tables ==>
      RowsOf(db.tables, t) == StoredRows(RowsHeld(sql(src.lease.value.granted)(t)), db.jsonb(t))
    ensures r.Restored? && Leased(src, sql) ==> forall t :: t in src.tables ==>
      CameBack(sql(src.lease.value.granted)(t), RowsOf(db.tables, t), db.jsonb(t))
    ensures r.Restored? ==> NamespaceBack(decode, e.past, |old(e.past)| - 1, at, old(db.kv), db.kv)
    ensures r.Rejected? || r.NotEmpty? || r.Unanswered? ==> db.tables == old(db.tables) && db.kv == old(db.kv)
    // When nothing goes wrong, a source within the limits is dumped and restored, namespace and all.
    ensures (&& Calm(e, fs, cancelled, faults) && w.Reliable() && db.Reliable() && intact && cut >= |w.entries|
             && Fitting(src, decode, old(e.past)[|old(e.past)| - 1]) && old(EmptyTarget(src.tables, db, true))) ==>
      dumped && r.Restored? && Gained(old(db.kv), db.kv, Covered(decode, old(e.past)[|old(e.past)| - 1]))
  {
    hide CameBack, KeyBack, Gained, PinnedAt, KvMoved, KvPasses, KvComplete, StrictlyAscending, FullEntries, LineMap,
         ReadsOf, Gated, Orderly;
    var snap;
    snap, at := StableKVSnapshot(e, fs, decode, cancelled, faults);
    var whole := src.(kv := if snap.Ok? then Some(fs.files[snap.value.path]) else None);
    if Calm(e, fs, cancelled, faults) && Fitting(src, decode, old(e.past)[|old(e.past)| - 1]) {
      FittingIsWhole(src, decode, old(e.past)[|old(e.past)| - 1], fs.files[snap.value.path], whole);
    }
    dumped, r := DumpThenRestore(whole, w, db, cut, intact);
    if r.Restored? {
      ghost var lines := fs.files[snap.value.path];
      AscendingKeys(KeysOf(lines));
      LinesGained(old(db.kv), db.kv, lines);
      assert NamespaceBack(decode, e.past, |old(e.past)| - 1, at, old(db.kv), db.kv);
      if Leased(src, sql) { TablesOfMoment(src, whole, sql); }
    }
  }
}
