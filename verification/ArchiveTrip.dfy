/** What the dump and the preflight check promise together: an accepted archive is a whole one,
    and a whole one is accepted exactly when its source can be written back. */
module ArchiveTrip {
  import opened Common
  import opened KvNamespace
  import opened Archive
  import opened ArchiveCheck
  import opened ArchiveDump
  import opened ArchiveRestore
  import opened ArchiveApply

  // ---------------------------------------------------------------- failed dumps are refused

  lemma {:induction false} NoResultsFound(es: seq<Entry>)
    requires NoCompletion(es)
    ensures FindResults(es).None?
  {
    if es != [] { NoResultsFound(es[..|es| - 1]); }
  }

  lemma CompletionIsLast(src: Source, es: seq<Entry>, n: nat)
    requires Honest(src, es) && n <= |es|
    ensures n < |es| ==> NoCompletion(es[..n])
  {
    if n < |es| && !NoCompletion(es) {
      forall i | 0 <= i < n
        ensures !es[..n][i].ResultsEntry?
      {
        assert es[..n][i] == es[..|es| - 1][i];
      }
    }
  }

  lemma DirtyIsRefused(tables: seq<string>, m: Manifest, rs: seq<TableResult>, observed: map<string, nat>)
    ensures Balanced(tables, m, rs, observed) ==> Clean(rs)
  {
    if Balanced(tables, m, rs, observed) {
      forall i | 0 <= i < |rs|
        ensures rs[i].ok
      {
        assert ResultFits(tables, m, rs[i], observed);
      }
    }
  }

  /** MAIN RESULT. Whatever failed during a dump, and wherever its stream was cut: if what is left
      is accepted, it is the whole archive of a source read without a failure inside the lease. */
  lemma AcceptedIsWhole(src: Source, es: seq<Entry>, n: nat, intact: bool)
    requires Honest(src, es) && n <= |es| && Accepted(src.tables, TarArchive(es[..n], intact))
    ensures n == |es| && AllRead(src) && es == FullEntries(src) && intact
  {
    if NoCompletion(es[..n]) { NoResultsFound(es[..n]); }
    CompletionIsLast(src, es, n);
    assert es[..n] == es;
    DirtyIsRefused(src.tables, FindManifest(es).value, FindResults(es).value, Observed(es));
  }

  // ---------------------------------------------------------------- whole dumps are accepted

  /** The conditions under which the decoder takes back what the dump wrote. */
  ghost predicate RowsRestorable(rows: seq<Row>, size: Row -> nat) {
    forall i :: 0 <= i < |rows| ==> RowFits(rows[i]) && size(rows[i]) < ROW_LIMIT
  }

  ghost predicate KvRestorable(lines: seq<KvLine>, size: KvLine -> nat) {
    (forall i :: 0 <= i < |lines| ==> KvLineRestorable(lines[i], size)) && NoRepeats(KeysOf(lines))
  }

  ghost predicate KvLineRestorable(l: KvLine, size: KvLine -> nat) {
    KvLineText(l, size).Carries? && KvFits(l) && size(l) < KV_LIMIT
  }

  ghost predicate Restorable(src: Source) {
    && src.kv.Some? && KvRestorable(src.kv.value, src.kvSize)
    && forall t :: t in src.tables && src.table(t).Rows? ==> RowsRestorable(src.table(t).rows, src.rowSize)
  }

  /** All lines written read back as values, in order. */
  lemma {:induction false} AllCarried<T>(lines: seq<Line<T>>, values: seq<T>)
    requires |lines| == |values| && forall i :: 0 <= i < |lines| ==> lines[i].Carries? && lines[i].value == values[i]
    ensures Values(lines) == values
  {
    if lines != [] {
      AllCarried(lines[..|lines| - 1], values[..|values| - 1]);
    }
  }

  lemma RowTextFits(rows: seq<Row>, size: Row -> nat)
    ensures RowLines(TextOf(rows, size)) <==> RowsRestorable(rows, size)
    ensures Values(TextOf(rows, size)) == rows
  {
    var lines := TextOf(rows, size);
    AllCarried(lines, rows);
    if RowLines(lines) {
      forall i | 0 <= i < |rows|
        ensures RowFits(rows[i]) && size(rows[i]) < ROW_LIMIT
      {
        assert LineFits(lines[i], ROW_LIMIT, (row: Row) => RowFits(row));
      }
    }
  }

  lemma KvTextFits(lines: seq<KvLine>, size: KvLine -> nat)
    ensures KvLinesOk(KvTextOf(lines, size)) <==> KvRestorable(lines, size)
    ensures KvRestorable(lines, size) ==> Values(KvTextOf(lines, size)) == lines
  {
    var text := KvTextOf(lines, size);
    if KvLinesOk(text) {
      forall i | 0 <= i < |lines|
        ensures KvLineRestorable(lines[i], size)
      {
        assert LineFits(text[i], KV_LIMIT, (l: KvLine) => KvFits(l));
      }
      AllCarried(text, lines);
    } else if KvRestorable(lines, size) {
      AllCarried(text, lines);
    }
  }

  /** The table entries of a dump, one for each table that was there. */
  lemma {:induction false} SectionsAre(ts: seq<string>, src: Source)
    requires NoRepeats(ts)
    ensures forall e :: e in Sections(ts, src) ==> e.TableEntry? && e.table in ts && [e] == Section(e.table, src)
    ensures forall i, j :: 0 <= i < j < |Sections(ts, src)| ==> !Clash(Sections(ts, src)[i], Sections(ts, src)[j])
  {
    if ts != [] {
      SectionsAre(ts[..|ts| - 1], src);
      assert ts == ts[..|ts| - 1] + [ts[|ts| - 1]];
    }
  }

  lemma {:induction false} SectionFor(ts: seq<string>, src: Source, t: string)
    requires t in ts && src.table(t).Rows?
    ensures TableEntry(t, TextOf(src.table(t).rows, src.rowSize)) in Sections(ts, src)
  {
    if t != ts[|ts| - 1] { SectionFor(ts[..|ts| - 1], src, t); }
  }

  /** The entries up to the key-value section. */
  function Head(ts: seq<string>, src: Source): seq<Entry> {
    if ts == [] then [Opening(src)] else Head(ts[..|ts| - 1], src) + Section(ts[|ts| - 1], src)
  }

  lemma {:induction false} HeadIs(ts: seq<string>, src: Source)
    ensures Head(ts, src) == [Opening(src)] + Sections(ts, src)
  {
    if ts != [] {
      HeadIs(ts[..|ts| - 1], src);
      Associative([Opening(src)], Sections(ts[..|ts| - 1], src), Section(ts[|ts| - 1], src));
    }
  }

  function RowsAt(src: Source, t: string): seq<Row> { if src.table(t).Rows? then src.table(t).rows else [] }

  /** What one more table entry, or none, adds to what an archive holds. */
  lemma SectionAdds(es: seq<Entry>, src: Source, t: string, u: string)
    ensures var longer := es + Section(t, src);
      && FindManifest(longer) == FindManifest(es) && KvLinesIn(longer) == KvLinesIn(es)
      && RowsIn(longer, u) == RowsIn(es, u) + (if u == t then RowsAt(src, t) else [])
      && Observed(longer) == if src.table(t).Rows? then Observed(es)[t := |src.table(t).rows|] else Observed(es)
  {
    var longer := es + Section(t, src);
    if src.table(t).Rows? {
      RowTextFits(src.table(t).rows, src.rowSize);
      assert longer[..|longer| - 1] == es;
    } else {
      assert longer == es;
    }
  }

  /** Before the key-value entry, the archive holds the rows of the tables that were there. */
  lemma {:induction false} HeadHolds(ts: seq<string>, src: Source, u: string)
    requires NoRepeats(ts)
    ensures FindManifest(Head(ts, src)) == Opening(src).manifest && KvLinesIn(Head(ts, src)) == []
    ensures RowsIn(Head(ts, src), u) == if u in ts then RowsAt(src, u) else []
    ensures CountOf(Observed(Head(ts, src)), u) == if u in ts then RowsRead(src.table(u)) else 0
    ensures u in Observed(Head(ts, src)) ==> u in ts
  {
    if ts == [] {
      assert [Opening(src)][..0] == [];
    } else {
      var front, t := ts[..|ts| - 1], ts[|ts| - 1];
      assert ts == front + [t] && t !in front;
      HeadHolds(front, src, u);
      SectionAdds(Head(front, src), src, t, u);
    }
  }

  /** What the key-value section and the completion record add. */
  lemma EndAdds(head: seq<Entry>, lines: seq<Line<KvLine>>, rs: seq<TableResult>, u: string)
    ensures var es := head + [KvEntry(lines), ResultsEntry(Some(rs))];
      && FindManifest(es) == FindManifest(head) && FindResults(es) == Some(rs)
      && Observed(es) == Observed(head)[KV_RESULT := |Values(lines)|]
      && RowsIn(es, u) == RowsIn(head, u) && KvLinesIn(es) == KvLinesIn(head) + Values(lines)
  {
    var es, middle := head + [KvEntry(lines), ResultsEntry(Some(rs))], head + [KvEntry(lines)];
    assert es[..|es| - 1] == middle && middle[..|middle| - 1] == head;
    assert RowsIn(es, u) == RowsIn(middle, u) && RowsIn(middle, u) == RowsIn(head, u);
  }

  lemma FullParts(src: Source)
    requires src.kv.Some? && NoRepeats(src.tables) && KV_RESULT !in src.tables
    ensures var es := FullEntries(src);
      && FindManifest(es) == Opening(src).manifest && FindResults(es) == Some(Closing(src))
      && (forall t :: t in src.tables ==> CountOf(Observed(es), t) == RowsRead(src.table(t)))
      && CountOf(Observed(es), KV_RESULT) == |Values(KvTextOf(src.kv.value, src.kvSize))|
      && forall t :: t in Observed(es) ==> t in src.tables || t == KV_RESULT
  {
    var head := Head(src.tables, src);
    HeadIs(src.tables, src);
    EndAdds(head, KvTextOf(src.kv.value, src.kvSize), Closing(src), "");
    HeadHolds(src.tables, src, "");
    forall t
      ensures CountOf(Observed(head), t) == if t in src.tables then RowsRead(src.table(t)) else 0
      ensures t in Observed(head) ==> t in src.tables
    {
      HeadHolds(src.tables, src, t);
    }
  }

  lemma FullNeverClashes(src: Source)
    requires src.kv.Some? && NoRepeats(src.tables)
    ensures var es := FullEntries(src); forall i, j :: 0 <= i < j < |es| ==> !Clash(es[i], es[j])
  {
    var es, sections := FullEntries(src), Sections(src.tables, src);
    SectionsAre(src.tables, src);
    forall i, j | 0 <= i < j < |es|
      ensures !Clash(es[i], es[j])
    {
      if 0 < i && j < |es| - 2 { assert es[i] == sections[i - 1] && es[j] == sections[j - 1]; }
      if 0 < i < |es| - 2 { assert es[i] == sections[i - 1] && sections[i - 1].TableEntry?; }
    }
  }

  lemma SectionFits(src: Source, e: Entry)
    requires NoRepeats(src.tables) && e in Sections(src.tables, src)
    ensures e.TableEntry? && e.table in src.tables && src.table(e.table).Rows?
    ensures EntryFits(src.tables, e) <==> RowsRestorable(src.table(e.table).rows, src.rowSize)
  {
    SectionsAre(src.tables, src);
    RowTextFits(src.table(e.table).rows, src.rowSize);
  }

  lemma FullEntriesFit(src: Source)
    requires src.kv.Some? && NoRepeats(src.tables)
    ensures EntriesOk(src.tables, FullEntries(src)) <==> Restorable(src)
  {
    FullNeverClashes(src);
    KvTextFits(src.kv.value, src.kvSize);
    if EntriesOk(src.tables, FullEntries(src)) { FittingIsRestorable(src); }
    if Restorable(src) { RestorableFits(src); }
  }

  lemma FittingIsRestorable(src: Source)
    requires src.kv.Some? && NoRepeats(src.tables) && EntriesOk(src.tables, FullEntries(src))
    ensures Restorable(src)
  {
    hide KvLinesOk, KvRestorable, RowsRestorable, RowLines, TextOf, KvTextOf, OneEach;
    var es, sections := FullEntries(src), Sections(src.tables, src);
    KvTextFits(src.kv.value, src.kvSize);
    assert es[|es| - 2] == KvEntry(KvTextOf(src.kv.value, src.kvSize));
    assert EntryFits(src.tables, es[|es| - 2]);
    forall t | t in src.tables && src.table(t).Rows?
      ensures RowsRestorable(src.table(t).rows, src.rowSize)
    {
      SectionFor(src.tables, src, t);
      var i :| 0 <= i < |sections| && sections[i] == TableEntry(t, TextOf(src.table(t).rows, src.rowSize));
      SectionFits(src, sections[i]);
      assert es[i + 1] == sections[i] && EntryFits(src.tables, es[i + 1]);
    }
  }

  lemma RestorableFits(src: Source)
    requires src.kv.Some? && NoRepeats(src.tables) && Restorable(src)
    ensures forall i :: 0 <= i < |FullEntries(src)| ==> EntryFits(src.tables, FullEntries(src)[i])
  {
    var es, sections := FullEntries(src), Sections(src.tables, src);
    KvTextFits(src.kv.value, src.kvSize);
    forall i | 0 <= i < |es|
      ensures EntryFits(src.tables, es[i])
    {
      if 0 < i < |es| - 2 {
        assert es[i] == sections[i - 1];
        SectionFits(src, sections[i - 1]);
      }
    }
  }

  lemma FullBalances(src: Source)
    requires Restorable(src) && NoRepeats(src.tables) && KV_RESULT !in src.tables
    ensures Balanced(src.tables, Opening(src).manifest.value, Closing(src), Observed(FullEntries(src)))
  {
    var m, rs, observed := Opening(src).manifest.value, Closing(src), Observed(FullEntries(src));
    FullParts(src);
    KvTextFits(src.kv.value, src.kvSize);
    forall i | 0 <= i < |rs|
      ensures ResultFits(src.tables, m, rs[i], observed)
    {
      if i < |src.tables| { assert src.tables[i] in src.tables; }
    }
    assert NamesOf(rs) == src.tables + [KV_RESULT];
    forall t | IsDeclared(m, t)
      ensures t in NamesOf(rs)
    {
      if t == KV_RESULT { assert NamesOf(rs)[|src.tables|] == t; }
    }
  }

  /** MAIN RESULT. The whole archive of a source is accepted exactly when the decoder takes back
      every line of it: rows and keys that fit, within the scanner's limits. */
  lemma WholeIsAccepted(src: Source)
    requires src.kv.Some? && NoRepeats(src.tables) && KV_RESULT !in src.tables
    ensures Accepted(src.tables, TarArchive(FullEntries(src), true)) <==> Restorable(src)
  {
    FullEntriesFit(src);
    FullParts(src);
    if Restorable(src) { FullBalances(src); }
  }

  // ---------------------------------------------------------------- there and back

  /** A whole archive holds the source's rows and keys. */
  lemma FullHolds(src: Source)
    requires Restorable(src) && NoRepeats(src.tables)
    ensures forall t :: t in src.tables ==> RowsIn(FullEntries(src), t) == RowsAt(src, t)
    ensures KvLinesIn(FullEntries(src)) == src.kv.value
  {
    var head, text := Head(src.tables, src), KvTextOf(src.kv.value, src.kvSize);
    HeadIs(src.tables, src);
    forall t | t in src.tables
      ensures RowsIn(FullEntries(src), t) == RowsAt(src, t)
    {
      HeadHolds(src.tables, src, t);
      EndAdds(head, text, Closing(src), t);
    }
    HeadHolds(src.tables, src, "");
    EndAdds(head, text, Closing(src), "");
    KvTextFits(src.kv.value, src.kvSize);
  }

  /** The table holds every row that was read, each cell as the engine stores it, and no other. */
  ghost predicate CameBack(read: TableRead, rows: seq<map<string, Stored>>, jsonb: set<string>) {
    match read
    case Missing => rows == []
    case ReadFailed => false
    case Rows(held) => |rows| == |held| && forall i :: 0 <= i < |held| ==> RowBack(held[i], rows[i], jsonb)
  }

  lemma TableCameBack(src: Source, t: string, jsonb: set<string>)
    requires !src.table(t).ReadFailed?
    ensures CameBack(src.table(t), StoredRows(RowsAt(src, t), jsonb), jsonb)
  {
    hide RowBack;
    forall row {
      RowComesBack(row, jsonb);
    }
  }

  /** A target that holds what was read shows it, row by row and key by key. */
  lemma SourceCameBack(src: Source, db: Target)
    requires AllRead(src) && KvPasses(db.kv, src.kv.value)
    requires forall t :: t in src.tables ==> RowsOf(db.tables, t) == StoredRows(RowsAt(src, t), db.jsonb(t))
    ensures forall t :: t in src.tables ==> CameBack(src.table(t), RowsOf(db.tables, t), db.jsonb(t))
    ensures forall l :: l in src.kv.value ==> KeyBack(l, db.kv)
  {
    hide CameBack, KeyBack, StoredRows;
    forall t | t in src.tables
      ensures CameBack(src.table(t), RowsOf(db.tables, t), db.jsonb(t))
    {
      TableCameBack(src, t, db.jsonb(t));
    }
    forall l | l in src.kv.value
      ensures KeyBack(l, db.kv)
    {
      var i :| 0 <= i < |src.kv.value| && src.kv.value[i] == l;
      KeyComesBack(l, db.kv);
    }
  }

  /** MAIN RESULT, the round trip under every fault. A dump is taken, its stream is cut after
      `cut` entries (or not at all), and what is left is restored. If the restore reports success,
      the dump had read everything inside its lease, and the target holds exactly the source's
      rows, each once and in order, and every archived key's content, where only an empty string
      may be absent instead. If anything of the source was not read, the archive is refused and the
      target is as it was. */
  method DumpThenRestore(src: Source, w: TarWriter, db: Target, cut: nat, intact: bool)
      returns (dumped: bool, r: Outcome)
    requires NoRepeats(src.tables) && KV_RESULT !in src.tables && w.entries == [] && !w.broken
    modifies w, db`ops, db`tables, db`kv
    ensures r.Restored? ==> AllRead(src) && Restorable(src)
    ensures r.Restored? ==>
      forall t :: t in src.tables ==> RowsOf(db.tables, t) == StoredRows(RowsAt(src, t), db.jsonb(t))
    ensures r.Restored? ==> forall t :: t in src.tables ==>
      CameBack(src.table(t), RowsOf(db.tables, t), db.jsonb(t))
    ensures r.Restored? ==> forall l :: l in src.kv.value ==> KeyBack(l, db.kv)
    ensures r.Restored? ==> KvMoved(old(db.kv), db.kv, src.kv.value) && KvPasses(db.kv, src.kv.value)
    ensures r.Restored? && NoEmptyStrings(src.kv.value) ==> KvComplete(db.kv, src.kv.value)
    ensures !AllRead(src) || !Restorable(src) || cut < |w.entries| || !intact ==>
      r.Rejected? && db.tables == old(db.tables) && db.kv == old(db.kv)
    ensures r.Rejected? || r.NotEmpty? || r.Unanswered? ==> db.tables == old(db.tables) && db.kv == old(db.kv)
    ensures w.Reliable() && AllRead(src) ==> dumped
    ensures (&& dumped && cut >= |w.entries| && intact && Restorable(src) && old(EmptyTarget(src.tables, db, true))
             && db.Steady() && Unseen(db, old(db.kv), src.kv.value)) ==>
      r.Restored? && AllLanded(db, old(db.kv), db.kv, src.kv.value)
  {
    hide KeyBack, CameBack, StoredRows, KvMoved, KvPasses, KvComplete, Restorable, FullEntries, Honest, Unseen,
         AllLanded, AppliedPartly, TableBack, Accepted, LeaseOk;
    dumped := DumpTar(src, w);
    var n := if cut < |w.entries| then cut else |w.entries|;
    var left := TarArchive(w.entries[..n], intact);
    ghost var accepted := Accepted(src.tables, left);
    if accepted {
      AcceptedIsWhole(src, w.entries, n, intact);
      assert w.entries[..n] == w.entries;
      WholeIsAccepted(src);
      FullHolds(src);
    } else if dumped && n == |w.entries| && intact {
      assert w.entries[..n] == w.entries;
      WholeIsAccepted(src);
    }
    r := Restore(src.tables, db, left);
    if r.Restored? { SourceCameBack(src, db); }
  }

  /** What a dump reads is text or NULL. */
  ghost predicate Plain(row: Row) { forall c :: c in row ==> row[c].Text? || row[c].Null? }

  /** The row as the source held it. */
  function AsHeld(row: Row): map<string, Stored>
    requires Plain(row)
  {
    map c | c in row :: if row[c].Text? then SqlText(row[c].text) else SqlNull
  }

  /** A dumped row comes back unchanged exactly when no JSONB column held an empty string, which
      comes back as NULL. */
  lemma SameRowBack(row: Row, jsonb: set<string>)
    requires Plain(row)
    ensures StoredRow(row, jsonb) == AsHeld(row) <==> forall c :: c in row && c in jsonb ==> row[c] != Text("")
  {
    var stored, held := StoredRow(row, jsonb), AsHeld(row);
    if forall c :: c in row && c in jsonb ==> row[c] != Text("") {
      forall c | c in row
        ensures stored[c] == held[c]
      {
      }
    } else {
      var c :| c in row && c in jsonb && row[c] == Text("");
      assert stored[c] == SqlNull && held[c] == SqlText("");
    }
  }

  // ---------------------------------------------------------------- order is not checked

  function CountedIn(observed: map<string, nat>, e: Entry): map<string, nat> {
    match e
    case TableEntry(t, lines) => observed[t := |Values(lines)|]
    case KvEntry(lines) => observed[KV_RESULT := |Values(lines)|]
    case _ => observed
  }

  lemma CountedInAnyOrder(observed: map<string, nat>, x: Entry, y: Entry)
    requires !Clash(x, y) && (x.TableEntry? ==> x.table != KV_RESULT) && (y.TableEntry? ==> y.table != KV_RESULT)
    ensures CountedIn(CountedIn(observed, x), y) == CountedIn(CountedIn(observed, y), x)
  {
  }

  lemma OneMoreEntry(es: seq<Entry>, e: Entry)
    ensures FindManifest(es + [e]) == if e.ManifestEntry? then e.manifest else FindManifest(es)
    ensures FindResults(es + [e]) == if e.ResultsEntry? then e.results else FindResults(es)
    ensures Observed(es + [e]) == CountedIn(Observed(es), e)
  {
    assert (es + [e])[..|es|] == es;
  }

  lemma SwapAtEnd(pre: seq<Entry>, x: Entry, y: Entry)
    requires !Clash(x, y) && (x.TableEntry? ==> x.table != KV_RESULT) && (y.TableEntry? ==> y.table != KV_RESULT)
    ensures FindManifest(pre + [x] + [y]) == FindManifest(pre + [y] + [x])
    ensures FindResults(pre + [x] + [y]) == FindResults(pre + [y] + [x])
    ensures Observed(pre + [x] + [y]) == Observed(pre + [y] + [x])
  {
    OneMoreEntry(pre, x);
    OneMoreEntry(pre, y);
    OneMoreEntry(pre + [x], y);
    OneMoreEntry(pre + [y], x);
    CountedInAnyOrder(Observed(pre), x, y);
  }

  lemma {:induction false} SwapSameParts(pre: seq<Entry>, x: Entry, y: Entry, post: seq<Entry>)
    requires !Clash(x, y) && (x.TableEntry? ==> x.table != KV_RESULT) && (y.TableEntry? ==> y.table != KV_RESULT)
    ensures FindManifest(pre + [x, y] + post) == FindManifest(pre + [y, x] + post)
    ensures FindResults(pre + [x, y] + post) == FindResults(pre + [y, x] + post)
    ensures Observed(pre + [x, y] + post) == Observed(pre + [y, x] + post)
  {
    var a, b := pre + [x, y] + post, pre + [y, x] + post;
    if post == [] {
      SwapAtEnd(pre, x, y);
      assert a == pre + [x] + [y] && b == pre + [y] + [x];
    } else {
      var front, last := post[..|post| - 1], post[|post| - 1];
      SwapSameParts(pre, x, y, front);
      OneMoreEntry(pre + [x, y] + front, last);
      OneMoreEntry(pre + [y, x] + front, last);
      assert a == pre + [x, y] + front + [last] && b == pre + [y, x] + front + [last];
    }
  }

  lemma SwapFits(tables: seq<string>, pre: seq<Entry>, x: Entry, y: Entry, post: seq<Entry>)
    requires EntriesOk(tables, pre + [x, y] + post)
    ensures EntriesOk(tables, pre + [y, x] + post) && !Clash(x, y) && EntryFits(tables, x) && EntryFits(tables, y)
  {
    var a, b, n := pre + [x, y] + post, pre + [y, x] + post, |pre|;
    assert a[n] == x && a[n + 1] == y && b[n] == y && b[n + 1] == x;
    assert !Clash(a[n], a[n + 1]);
    assert forall i :: 0 <= i < |a| && i != n && i != n + 1 ==> b[i] == a[i];
    forall i | 0 <= i < |b|
      ensures EntryFits(tables, b[i])
    {
      assert EntryFits(tables, a[if i == n then n + 1 else if i == n + 1 then n else i]);
    }
    forall i, j | 0 <= i < j < |b|
      ensures !Clash(b[i], b[j])
    {
      NeverClash(a, if i == n then n + 1 else if i == n + 1 then n else i,
                 if j == n then n + 1 else if j == n + 1 then n else j);
    }
  }

  lemma NeverClash(es: seq<Entry>, i: nat, j: nat)
    requires OneEach(es) && i < |es| && j < |es| && i != j
    ensures !Clash(es[i], es[j])
  {
    if i < j { assert !Clash(es[i], es[j]); } else { assert !Clash(es[j], es[i]); }
  }

  lemma SwapNotChecked(tables: seq<string>, pre: seq<Entry>, x: Entry, y: Entry, post: seq<Entry>, intact: bool)
    requires KV_RESULT !in tables && Accepted(tables, TarArchive(pre + [x, y] + post, intact))
    ensures Accepted(tables, TarArchive(pre + [y, x] + post, intact))
  {
    SwapFits(tables, pre, x, y, post);
    SwapSameParts(pre, x, y, post);
  }

  /** Exchanging neighbours keeps p. */
  ghost predicate KeptBySwaps<T(!new)>(p: seq<T> -> bool) {
    forall pre, x, y, post :: p(pre + [x, y] + post) ==> p(pre + [y, x] + post)
  }

  lemma {:induction false} MovesBack<T(!new)>(p: seq<T> -> bool, pre: seq<T>, x: T, post: seq<T>, tail: seq<T>)
    requires KeptBySwaps(p) && p(pre + [x] + post + tail)
    ensures p(pre + post + [x] + tail)
    decreases post
  {
    if post == [] {
      assert pre + [x] + post + tail == pre + post + [x] + tail;
    } else {
      var y, rest := post[0], post[1..];
      assert pre + [x] + post + tail == pre + [x, y] + (rest + tail);
      assert pre + [y, x] + (rest + tail) == (pre + [y]) + [x] + rest + tail;
      MovesBack(p, pre + [y], x, rest, tail);
      assert (pre + [y]) + rest + [x] + tail == pre + post + [x] + tail;
    }
  }

  function Without<T>(a: seq<T>, i: nat): seq<T>
    requires i < |a|
  {
    a[..i] + a[i + 1..]
  }

  lemma MovesOut<T(!new)>(p: seq<T> -> bool, a: seq<T>, i: nat, tail: seq<T>)
    requires KeptBySwaps(p) && i < |a| && p(a + tail)
    ensures p(Without(a, i) + ([a[i]] + tail))
  {
    assert a + tail == a[..i] + [a[i]] + a[i + 1..] + tail;
    MovesBack(p, a[..i], a[i], a[i + 1..], tail);
    assert a[..i] + a[i + 1..] + [a[i]] + tail == Without(a, i) + ([a[i]] + tail);
  }

  lemma OneMore<T>(pre: seq<T>, x: T, post: seq<T>)
    ensures multiset(pre + [x] + post) == multiset(pre + post) + multiset{x}
  {
  }

  lemma Cancel<T>(m: multiset<T>, n: multiset<T>, x: T)
    requires m + multiset{x} == n + multiset{x}
    ensures m == n
  {
    assert forall y :: (m + multiset{x})[y] == m[y] + multiset{x}[y] && (n + multiset{x})[y] == n[y] + multiset{x}[y];
  }

  lemma LastOne<T>(front: seq<T>, x: T)
    ensures multiset(front + [x]) == multiset(front) + multiset{x}
  {
  }

  lemma WithoutSame<T>(a: seq<T>, pre: seq<T>, x: T, post: seq<T>, b: seq<T>, front: seq<T>)
    requires multiset(a) == multiset(b) && a == pre + [x] + post && b == front + [x]
    ensures multiset(pre + post) == multiset(front)
  {
    OneMore(pre, x, post);
    LastOne(front, x);
    Cancel(multiset(pre + post), multiset(front), x);
  }

  /** The last of b, taken out of a. */
  lemma LastTakenOut<T>(a: seq<T>, b: seq<T>) returns (i: nat)
    requires multiset(a) == multiset(b) && b != []
    ensures i < |a| && a[i] == b[|b| - 1] && multiset(Without(a, i)) == multiset(b[..|b| - 1])
  {
    var x := b[|b| - 1];
    assert x in multiset(b);
    i :| 0 <= i < |a| && a[i] == x;
    WithoutSame(a, a[..i], x, a[i + 1..], b, b[..|b| - 1]);
  }

  /** What neighbours' exchanges keep, every permutation keeps. */
  lemma {:induction false} KeptByPermutations<T(!new)>(p: seq<T> -> bool, a: seq<T>, b: seq<T>, tail: seq<T>)
    requires KeptBySwaps(p) && multiset(a) == multiset(b) && p(a + tail)
    ensures p(b + tail)
    decreases |b|
  {
    if b == [] {
      assert |multiset(a)| == 0;
      assert a == b;
    } else {
      var i := LastTakenOut(a, b);
      var x := b[|b| - 1];
      MovesOut(p, a, i, tail);
      KeptByPermutations(p, Without(a, i), b[..|b| - 1], [x] + tail);
      assert b[..|b| - 1] + ([x] + tail) == b + tail;
    }
  }

  /** The preflight check is indifferent to the order of the entries. */
  lemma OrderIsNotChecked(tables: seq<string>, es: seq<Entry>, es': seq<Entry>, intact: bool)
    requires KV_RESULT !in tables && multiset(es) == multiset(es')
    ensures Accepted(tables, TarArchive(es, intact)) <==> Accepted(tables, TarArchive(es', intact))
  {
    var p := (s: seq<Entry>) => Accepted(tables, TarArchive(s, intact));
    forall pre, x, y, post | p(pre + [x, y] + post)
      ensures p(pre + [y, x] + post)
    {
      SwapNotChecked(tables, pre, x, y, post, intact);
    }
    assert es + [] == es && es' + [] == es';
    if p(es) { KeptByPermutations(p, es, es', []); }
    if p(es') { KeptByPermutations(p, es', es, []); }
  }

  /** So the entries of a restorable source's archive are accepted in any order. */
  lemma AnyOrderIsAccepted(src: Source, es: seq<Entry>)
    requires src.kv.Some? && NoRepeats(src.tables) && KV_RESULT !in src.tables
    requires multiset(es) == multiset(FullEntries(src))
    ensures Accepted(src.tables, TarArchive(es, true)) <==> Restorable(src)
  {
    WholeIsAccepted(src);
    OrderIsNotChecked(src.tables, FullEntries(src), es, true);
  }

  /** In particular the completion record need not come last: here it comes first. */
  lemma RecordFirstIsAccepted(src: Source) returns (es: seq<Entry>)
    requires Restorable(src) && NoRepeats(src.tables) && KV_RESULT !in src.tables
    ensures Accepted(src.tables, TarArchive(es, true))
    ensures es[0] == ResultsEntry(Some(Closing(src))) && forall i :: 0 < i < |es| ==> !es[i].ResultsEntry?
  {
    var full := FullEntries(src);
    var front, record := full[..|full| - 1], full[|full| - 1];
    es := [record] + front;
    assert full == front + [record];
    AnyOrderIsAccepted(src, es);
    forall i | 0 < i < |es|
      ensures !es[i].ResultsEntry?
    {
      assert !Clash(es[0], es[i]);
    }
  }
}
