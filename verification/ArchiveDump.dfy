/** The producer of an archive (internal/backup/backup.go:246-465): per-table results, a trailing
    completion record, and a sink that stays broken once a write to it failed. */
module ArchiveDump {
  import opened Common
  import opened KvNamespace
  import opened DumpLease
  import opened Archive

  /** What reading one table comes to: the instance lacks it, its rows, or a failure before
      anything reached the archive. */
  datatype TableRead = Missing | Rows(rows: seq<Row>) | ReadFailed

  /** Everything a dump reads. `lease` is what happened when, if the engine granted a snapshot lease;
      an old engine knows none. `rowSize` and `kvSize` are the lengths of the lines it would write. */
  datatype Source = Source(tables: seq<string>, table: string -> TableRead, kv: Option<seq<KvLine>>,
                           lease: Option<LeasedDump>, timeout: int, rowSize: Row -> nat, kvSize: KvLine -> nat)

  /** The closing check of the lease window. */
  predicate LeaseOk(src: Source) { src.lease.Some? ==> PassesCheck(src.lease.value, src.timeout) }

  function TextOf(rows: seq<Row>, size: Row -> nat): (lines: seq<Line<Row>>)
    ensures |lines| == |rows|
  {
    seq(|rows|, i requires 0 <= i < |rows| => Carries(rows[i], size(rows[i])))
  }

  /** A collection without elements is written without its field, which the decoder refuses. */
  function KvLineText(l: KvLine, size: KvLine -> nat): Line<KvLine> {
    if l.content == Members({}) || l.content == Scores(map[]) then Unreadable else Carries(l, size(l))
  }

  function KvTextOf(lines: seq<KvLine>, size: KvLine -> nat): (text: seq<Line<KvLine>>)
    ensures |text| == |lines|
  {
    seq(|lines|, i requires 0 <= i < |lines| => KvLineText(lines[i], size))
  }

  // ---------------------------------------------------------------- what a dump should write

  function RowsRead(r: TableRead): nat { if r.Rows? then |r.rows| else 0 }

  /** The entry of one table; none when the instance lacks it. */
  function Section(t: string, src: Source): seq<Entry> {
    match src.table(t)
    case Rows(rows) => [TableEntry(t, TextOf(rows, src.rowSize))]
    case _ => []
  }

  function ResultOf(t: string, r: Result<nat, ()>): TableResult {
    if r.Ok? then TableResult(t, r.value, true) else TableResult(t, 0, false)
  }

  function Sections(ts: seq<string>, src: Source): seq<Entry> {
    if ts == [] then []
    else
      var t := ts[|ts| - 1];
      Sections(ts[..|ts| - 1], src) + Section(t, src)
  }

  function Outcomes(ts: seq<string>, src: Source): (rs: seq<TableResult>)
    ensures |rs| == |ts| && forall i :: 0 <= i < |ts| ==> rs[i] == TableResult(ts[i], RowsRead(src.table(ts[i])), true)
  {
    seq(|ts|, i requires 0 <= i < |ts| => TableResult(ts[i], RowsRead(src.table(ts[i])), true))
  }

  function Opening(src: Source): Entry { ManifestEntry(Some(Manifest(VERSION, src.tables, [SECTION]))) }

  function Closing(src: Source): seq<TableResult>
    requires src.kv.Some?
  {
    Outcomes(src.tables, src) + [TableResult(KV_RESULT, |src.kv.value|, true)]
  }

  /** The whole archive of a source. */
  function FullEntries(src: Source): seq<Entry>
    requires src.kv.Some?
  {
    [Opening(src)] + Sections(src.tables, src)
    + [KvEntry(KvTextOf(src.kv.value, src.kvSize)), ResultsEntry(Some(Closing(src)))]
  }

  /** Every read of the dump succeeded, inside the lease. */
  ghost predicate AllRead(src: Source) {
    src.kv.Some? && LeaseOk(src) && forall t :: t in src.tables ==> !src.table(t).ReadFailed?
  }

  // ---------------------------------------------------------------- the sink

  /** How one entry fares: through; through, but reported as failed; not at all; or in part. */
  datatype SinkOutcome = Written | WrittenUnreported | Refused | Torn

  /** A tar writer. After an entry that was not reported as written, nothing more gets through. */
  class TarWriter {
    const fate: nat -> SinkOutcome
    var ops: nat
    var broken: bool
    var entries: seq<Entry>

    constructor (fate: nat -> SinkOutcome)
      ensures !broken && entries == [] && ops == 0 && this.fate == fate
    {
      this.fate := fate;
      ops, broken, entries := 0, false, [];
    }

    ghost predicate Reliable() { forall n :: fate(n) == Written }

    method Write(e: Entry) returns (ok: bool)
      modifies this
      ensures ok <==> !broken
      ensures ok <==> !old(broken) && fate(old(ops)) == Written
      ensures entries == if ok || (!old(broken) && fate(old(ops)) == WrittenUnreported) then old(entries) + [e]
                         else old(entries)
      ensures ops == if old(broken) then old(ops) else old(ops) + 1
    {
      if broken { return false; }
      var o := fate(ops);
      ok := o == Written;
      if ok || o == WrittenUnreported { entries := entries + [e]; }
      ops, broken := ops + 1, !ok;
    }

    /** The closing padding. */
    method Close() returns (ok: bool)
      modifies this
      ensures entries == old(entries) && broken
      ensures ok <==> !old(broken) && fate(old(ops)) == Written
      ensures ops == if old(broken) then old(ops) else old(ops) + 1
    {
      if broken { return false; }
      ok := fate(ops) == Written;
      ops, broken := ops + 1, true;
    }
  }

  // ---------------------------------------------------------------- the dump

  /** dumpTable, from the rows read to the entry written. */
  method DumpTable(src: Source, w: TarWriter, t: string) returns (r: Result<nat, ()>)
    modifies w
    ensures r.Ok? ==> !src.table(t).ReadFailed? && r.value == RowsRead(src.table(t))
    ensures r.Ok? ==> w.entries == old(w.entries) + Section(t, src)
    ensures r.Ok? ==> w.broken == old(w.broken)
    ensures r.Err? ==> w.entries == old(w.entries) || w.entries == old(w.entries) + Section(t, src)
    ensures !old(w.broken) && w.Reliable() && !src.table(t).ReadFailed? ==> r.Ok? && !w.broken
  {
    match src.table(t)
    case Missing => r := Ok(0);
    case ReadFailed => r := Err(());
    case Rows(rows) =>
      var ok := w.Write(TableEntry(t, TextOf(rows, src.rowSize)));
      r := if ok then Ok(|rows|) else Err(());
  }

  ghost predicate NoCompletion(es: seq<Entry>) { forall i :: 0 <= i < |es| ==> !es[i].ResultsEntry? }

  predicate Clean(rs: seq<TableResult>) { forall i :: 0 <= i < |rs| ==> rs[i].ok }

  /** After i tables: the results say what happened, and while none failed everything is there. */
  ghost predicate Progress(src: Source, i: nat, es: seq<Entry>, rs: seq<TableResult>) {
    && i <= |src.tables| && NoCompletion(es) && |rs| == i
    && (Clean(rs) ==>
          && rs == Outcomes(src.tables[..i], src) && es == [Opening(src)] + Sections(src.tables[..i], src)
          && forall j :: 0 <= j < i ==> !src.table(src.tables[j]).ReadFailed?)
  }

  lemma ProgressStep(src: Source, i: nat, es: seq<Entry>, rs: seq<TableResult>, es': seq<Entry>, r: Result<nat, ()>)
    requires i < |src.tables| && Progress(src, i, es, rs)
    requires r.Ok? ==> !src.table(src.tables[i]).ReadFailed? && r.value == RowsRead(src.table(src.tables[i]))
    requires r.Ok? ==> es' == es + Section(src.tables[i], src)
    requires r.Err? ==> es' == es || es' == es + Section(src.tables[i], src)
    ensures Progress(src, i + 1, es', rs + [ResultOf(src.tables[i], r)])
  {
    var t, last := src.tables[i], ResultOf(src.tables[i], r);
    assert src.tables[..i + 1][..i] == src.tables[..i];
    assert (rs + [last])[|rs|] == last;
    if Clean(rs + [last]) {
      assert last.ok && forall j :: 0 <= j < |rs| ==> (rs + [last])[j] == rs[j];
      assert rs + [last] == Outcomes(src.tables[..i + 1], src);
    }
  }

  /** The loop over the tables: a failed one is recorded and left out. */
  method DumpTables(src: Source, w: TarWriter) returns (rs: seq<TableResult>)
    requires w.entries == [Opening(src)]
    modifies w
    ensures Progress(src, |src.tables|, w.entries, rs)
    ensures !old(w.broken) && w.Reliable() && (forall t :: t in src.tables ==> !src.table(t).ReadFailed?) ==>
      Clean(rs) && !w.broken
  {
    rs := [];
    assert src.tables[..0] == [];
    for i := 0 to |src.tables|
      invariant Progress(src, i, w.entries, rs)
      invariant !old(w.broken) && w.Reliable() && (forall t :: t in src.tables ==> !src.table(t).ReadFailed?) ==>
        Clean(rs) && !w.broken
    {
      ghost var es := w.entries;
      var r := DumpTable(src, w, src.tables[i]);
      ProgressStep(src, i, es, rs, w.entries, r);
      rs := rs + [ResultOf(src.tables[i], r)];
    }
  }

  /** A stream that ends with a clean completion record is the whole archive of a source that
      was read without a failure; any other stream has a dirty record or none. */
  ghost predicate Honest(src: Source, es: seq<Entry>) {
    NoCompletion(es) || (es != [] && es[|es| - 1].ResultsEntry? && es[|es| - 1].results.Some?
                         && NoCompletion(es[..|es| - 1])
                         && (Clean(es[|es| - 1].results.value) ==> AllRead(src) && es == FullEntries(src)))
  }

  /** The result of the key-value section. */
  function KvResult(src: Source, written: bool): TableResult
    requires written ==> src.kv.Some?
  {
    if written then TableResult(KV_RESULT, |src.kv.value|, true) else TableResult(KV_RESULT, 0, false)
  }

  /** After the last section: a clean record would complete the whole archive. */
  lemma BeforeRecord(src: Source, es: seq<Entry>, rs: seq<TableResult>, longer: seq<Entry>, written: bool)
    requires Progress(src, |src.tables|, es, rs) && LeaseOk(src) && (written ==> src.kv.Some?)
    requires longer == es || (src.kv.Some? && longer == es + [KvEntry(KvTextOf(src.kv.value, src.kvSize))])
    requires written ==> longer != es
    ensures var all := rs + [KvResult(src, written)];
      && NoCompletion(longer)
      && (Clean(all) ==> AllRead(src) && longer + [ResultsEntry(Some(all))] == FullEntries(src))
      && (Clean(rs) && written ==> Clean(all))
  {
    var all := rs + [KvResult(src, written)];
    assert src.tables[..|src.tables|] == src.tables;
    assert all[|rs|] == KvResult(src, written) && forall j :: 0 <= j < |rs| ==> all[j] == rs[j];
    if Clean(all) {
      assert all[|rs|].ok && Clean(rs);
      assert all == Closing(src);
    }
  }

  /** Without a record a stream is honest, and with one that says what BeforeRecord says. */
  lemma RecordIsHonest(src: Source, es: seq<Entry>, rs: seq<TableResult>)
    requires NoCompletion(es)
    requires Clean(rs) ==> AllRead(src) && es + [ResultsEntry(Some(rs))] == FullEntries(src)
    ensures Honest(src, es) && Honest(src, es + [ResultsEntry(Some(rs))])
  {
    hide AllRead, FullEntries, Clean;
    assert (es + [ResultsEntry(Some(rs))])[..|es|] == es;
  }

  lemma NotCompleted(src: Source, es: seq<Entry>, rs: seq<TableResult>)
    requires Progress(src, |src.tables|, es, rs)
    ensures Honest(src, es) && (src.kv.Some? ==> Honest(src, es + [KvEntry(KvTextOf(src.kv.value, src.kvSize))]))
  {
  }

  /** dumpTar, after the lease decision. `ok` is what the caller is told. */
  method DumpTar(src: Source, w: TarWriter) returns (ok: bool)
    requires w.entries == [] && !w.broken
    modifies w
    ensures Honest(src, w.entries)
    ensures ok ==> AllRead(src) && w.entries == FullEntries(src)
    ensures w.Reliable() && AllRead(src) ==> ok
  {
    hide Progress, FullEntries, Opening, KvTextOf, LeaseOk;
    var begun := w.Write(Opening(src));
    if !begun {
      var _ := w.Close();
      OpeningIsHonest(src);
      return false;
    }
    assert w.entries == [Opening(src)];
    var rs := DumpTables(src, w);
    ghost var tableEntries, tableResults := w.entries, rs;
    var kvOk := false;
    if src.kv.Some? { kvOk := w.Write(KvEntry(KvTextOf(src.kv.value, src.kvSize))); }
    rs := rs + [KvResult(src, kvOk)];
    if !LeaseOk(src) {
      var _ := w.Close();
      NotCompleted(src, tableEntries, tableResults);
      return false;
    }
    BeforeRecord(src, tableEntries, tableResults, w.entries, kvOk);
    RecordIsHonest(src, w.entries, rs);
    var recorded := w.Write(ResultsEntry(Some(rs)));
    var closed := w.Close();
    ok := recorded && closed && Clean(rs);
  }

  lemma OpeningIsHonest(src: Source)
    ensures Honest(src, []) && Honest(src, [Opening(src)])
  {
  }
}
