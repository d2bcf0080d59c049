/** What an accepted archive is, entry by entry and line by line, without reference to how it is
    checked (internal/backup/restore.go:168-379, kvsrcmap.go:508-559). */
module ArchiveShape {
  import opened Common
  import opened KvNamespace
  import opened Archive
  import opened ArchiveCheck

  // ---------------------------------------------------------------- lines

  /** A column name that is safe in a statement. */
  ghost predicate SafeName(name: string) {
    && name != "" && !('0' <= name[0] <= '9')
    && forall c :: c in name ==> 'a' <= c <= 'z' || '0' <= c <= '9' || c == '_'
  }

  /** A blank line, or a nonempty object with safe column names in less than 16 MiB. */
  ghost predicate RowLine(l: Line<Row>) {
    !l.Unreadable? && (l.Carries? ==>
      l.size < 16 * 1024 * 1024 && l.value != map[] && forall name :: name in l.value ==> SafeName(name))
  }

  /** A blank line, or a key of the namespace with its content, within the budgets. */
  ghost predicate KeyLine(l: Line<KvLine>) {
    && !l.Unreadable?
    && (l.Carries? ==>
          && l.size < 320 * 1024 * 1024 && "srcmap:" <= l.value.key && '\0' !in l.value.key
          && (l.value.content.Str? ==> |l.value.content.value| <= 256 * 1024 * 1024)
          && (l.value.content.Members? ==> |l.value.content.members| <= 100_000)
          && (l.value.content.Scores? ==> |l.value.content.scores| <= 100_000 && "" !in l.value.content.scores))
  }

  /** How many lines carry a value. */
  ghost function Carrying<T>(lines: seq<Line<T>>): nat { |set i | 0 <= i < |lines| && lines[i].Carries?| }

  lemma SafeNameIs(s: string)
    ensures ValidIdent(s) <==> SafeName(s)
  {
    assert forall i :: 0 <= i < |s| ==> s[i] in s;
  }

  lemma RowLinesAre(lines: seq<Line<Row>>)
    ensures RowLines(lines) <==> forall l :: l in lines ==> RowLine(l)
  {
    forall s {
      SafeNameIs(s);
    }
    assert forall i :: 0 <= i < |lines| ==> lines[i] in lines;
  }

  lemma KvLineIs(l: Line<KvLine>)
    ensures KvLineFits(l) <==> KeyLine(l)
  {
    if l.Carries? && NS <= l.value.key {
      var key := l.value.key;
      assert key == NS + key[|NS|..];
      assert '\0' !in NS;
    }
  }

  lemma {:induction false} CarryingCounts<T>(lines: seq<Line<T>>)
    ensures |Values(lines)| == Carrying(lines)
  {
    if lines != [] {
      var n := |lines| - 1;
      var front := lines[..n];
      CarryingCounts(front);
      var here, before := set i | 0 <= i < |lines| && lines[i].Carries?, set i | 0 <= i < n && front[i].Carries?;
      assert here == before + if lines[n].Carries? then {n} else {};
    }
  }

  /** Line i carries key k. */
  ghost predicate KeyAt(lines: seq<Line<KvLine>>, i: nat, k: string) {
    i < |lines| && lines[i].Carries? && lines[i].value.key == k
  }

  ghost predicate KeysDiffer(lines: seq<Line<KvLine>>) {
    forall i, j, k :: i < j && KeyAt(lines, i, k) ==> !KeyAt(lines, j, k)
  }

  lemma {:induction false} KeysAre(lines: seq<Line<KvLine>>)
    ensures forall k :: k in KeysOf(Values(lines)) <==> exists i :: KeyAt(lines, i, k)
    ensures NoRepeats(KeysOf(Values(lines))) <==> KeysDiffer(lines)
  {
    if lines != [] {
      var n: nat := |lines| - 1;
      KeysAre(lines[..n]);
      KeysStep(lines, n);
    }
  }

  lemma KeysStep(lines: seq<Line<KvLine>>, n: nat)
    requires |lines| == n + 1
    requires forall k :: k in KeysOf(Values(lines[..n])) <==> exists i :: KeyAt(lines[..n], i, k)
    requires NoRepeats(KeysOf(Values(lines[..n]))) <==> KeysDiffer(lines[..n])
    ensures forall k :: k in KeysOf(Values(lines)) <==> exists i :: KeyAt(lines, i, k)
    ensures NoRepeats(KeysOf(Values(lines))) <==> KeysDiffer(lines)
  {
    var front, last := lines[..n], lines[n];
    LastLine(lines, n);
    assert lines[..n + 1] == lines;
    if last.Carries? {
      assert KeysOf(Values(lines)) == KeysOf(Values(front)) + [last.value.key];
      NoRepeatsMore(KeysOf(Values(front)), last.value.key);
    } else {
      assert Values(lines) == Values(front);
    }
    hide Values, KeysOf, NoRepeats, KeysDiffer, KeyAt;
    forall k
      ensures k in KeysOf(Values(lines)) <==> exists i :: KeyAt(lines, i, k)
    {
      KeyMore(lines, n, k);
    }
    LastDiffers(lines, n);
  }

  lemma KeyMore(lines: seq<Line<KvLine>>, n: nat, k: string)
    requires |lines| == n + 1
    ensures (exists i :: KeyAt(lines, i, k)) <==>
            (exists i :: KeyAt(lines[..n], i, k)) || (lines[n].Carries? && lines[n].value.key == k)
  {
    if exists i :: KeyAt(lines[..n], i, k) {
      var i: nat :| KeyAt(lines[..n], i, k);
      assert KeyAt(lines, i, k);
    }
    if lines[n].Carries? && lines[n].value.key == k { assert KeyAt(lines, n, k); }
    if exists i :: KeyAt(lines, i, k) {
      var i: nat :| KeyAt(lines, i, k);
      assert i < n ==> KeyAt(lines[..n], i, k);
    }
  }

  /** One line more: its key must be new. */
  lemma LastDiffers(lines: seq<Line<KvLine>>, n: nat)
    requires |lines| == n + 1
    ensures KeysDiffer(lines) <==>
            KeysDiffer(lines[..n]) && (lines[n].Carries? ==> !exists i :: KeyAt(lines[..n], i, lines[n].value.key))
  {
    var front, last := lines[..n], lines[n];
    assert forall i: nat, k :: KeyAt(lines, i, k) <==>
      KeyAt(front, i, k) || (i == n && last.Carries? && last.value.key == k);
    if last.Carries? { assert KeyAt(lines, n, last.value.key); }
  }

  lemma NoRepeatsMore(keys: seq<string>, k: string)
    ensures NoRepeats(keys + [k]) <==> NoRepeats(keys) && k !in keys
    ensures forall x :: x in keys + [k] <==> x in keys || x == k
  {
    var all := keys + [k];
    assert forall i :: 0 <= i < |keys| ==> all[i] == keys[i];
    assert all[|keys|] == k;
  }

  // ---------------------------------------------------------------- entries

  /** No second manifest, completion record, key-value entry or entry for a table. */
  ghost predicate NoSecond(es: seq<Entry>) {
    forall i, j :: 0 <= i < j < |es| ==>
      && !(es[i].ManifestEntry? && es[j].ManifestEntry?) && !(es[i].ResultsEntry? && es[j].ResultsEntry?)
      && !(es[i].KvEntry? && es[j].KvEntry?)
      && !(es[i].TableEntry? && es[j].TableEntry? && es[i].table == es[j].table)
  }

  /** The lines of table entries and of the key-value entry are sound. */
  ghost predicate SoundEntry(tables: seq<string>, e: Entry) {
    match e
    case TableEntry(t, lines) => t in tables && forall l :: l in lines ==> RowLine(l)
    case KvEntry(lines) => (forall l :: l in lines ==> KeyLine(l)) && KeysDiffer(lines)
    case _ => true
  }

  /** The archive holds n lines under this name; a name without an entry has none. */
  ghost predicate HoldsUnder(es: seq<Entry>, name: string, n: int) {
    && (forall e :: e in es && Under(e, name) ==> n == LinesOf(e))
    && ((forall e :: e in es ==> !Under(e, name)) ==> n == 0)
  }

  /** Key-value lines go under a name of their own. */
  ghost predicate Under(e: Entry, name: string) {
    (e.TableEntry? && e.table == name) || (e.KvEntry? && name == "kv:srcmap")
  }

  ghost function LinesOf(e: Entry): nat {
    match e
    case TableEntry(_, lines) => Carrying(lines)
    case KvEntry(lines) => Carrying(lines)
    case _ => 0
  }

  /** One result of the record is in order. */
  ghost predicate ResultAgrees(tables: seq<string>, es: seq<Entry>, m: Manifest, r: TableResult) {
    && r.ok && HoldsUnder(es, r.table, r.rows)
    && (if r.table == "kv:srcmap" then m.kvSections != [] else r.table in tables && r.table in m.tables)
  }

  /** Manifest, completion record and entries say the same: every declared table, and the section if
      it is declared, has one result, which was complete and counts the lines that are there; nothing
      else is recorded or present. */
  ghost predicate Agreeing(tables: seq<string>, es: seq<Entry>, m: Manifest, rs: seq<TableResult>) {
    && m.version == 1 && (m.kvSections == [] || m.kvSections == ["srcmap"])
    && (forall i, j :: 0 <= i < j < |m.tables| ==> m.tables[i] != m.tables[j])
    && (forall i, j :: 0 <= i < j < |rs| ==> rs[i].table != rs[j].table)
    && (forall r :: r in rs ==> ResultAgrees(tables, es, m, r))
    && (forall t :: t in m.tables ==> exists r :: r in rs && r.table == t)
    && (m.kvSections != [] ==> exists r :: r in rs && r.table == "kv:srcmap")
    && (forall e :: e in es ==> (e.TableEntry? ==> e.table in m.tables) && (e.KvEntry? ==> m.kvSections != []))
  }

  /** One manifest and one completion record, readable, that agree with sound entries. */
  ghost predicate WellMade(tables: seq<string>, es: seq<Entry>) {
    && NoSecond(es) && (forall e :: e in es ==> SoundEntry(tables, e))
    && exists m, rs :: ManifestEntry(Some(m)) in es && ResultsEntry(Some(rs)) in es && Agreeing(tables, es, m, rs)
  }

  lemma NoSecondIs(es: seq<Entry>)
    ensures NoSecond(es) <==> OneEach(es)
  {
    if NoSecond(es) {
      forall i, j | 0 <= i < j < |es|
        ensures !Clash(es[i], es[j])
      {
      }
    } else {
      var i, j :| 0 <= i < j < |es| && !(
        && !(es[i].ManifestEntry? && es[j].ManifestEntry?) && !(es[i].ResultsEntry? && es[j].ResultsEntry?)
        && !(es[i].KvEntry? && es[j].KvEntry?)
        && !(es[i].TableEntry? && es[j].TableEntry? && es[i].table == es[j].table));
      assert Clash(es[i], es[j]);
    }
  }

  lemma KvLinesAreSound(lines: seq<Line<KvLine>>)
    ensures KvLinesOk(lines) <==> (forall l :: l in lines ==> KeyLine(l)) && KeysDiffer(lines)
  {
    hide KeyLine, KvLineFits, KvLinesOk, KeysDiffer, NoRepeats;
    KvLinesAre(lines);
    KeysAre(lines);
    forall l
      ensures KvLineFits(l) <==> KeyLine(l)
    {
      KvLineIs(l);
    }
    assert forall i :: 0 <= i < |lines| ==> lines[i] in lines;
  }

  lemma SoundEntryIs(tables: seq<string>, e: Entry)
    requires !e.ManifestEntry? && !e.ResultsEntry?
    ensures EntryFits(tables, e) <==> SoundEntry(tables, e)
  {
    match e
    case TableEntry(t, lines) => RowLinesAre(lines);
    case KvEntry(lines) => KvLinesAreSound(lines);
    case _ =>
  }

  lemma {:induction false} FoundManifest(es: seq<Entry>, m: Option<Manifest>)
    requires OneEach(es) && ManifestEntry(m) in es
    ensures FindManifest(es) == m
  {
    var front, last := es[..|es| - 1], es[|es| - 1];
    if last.ManifestEntry? {
      var i :| 0 <= i < |es| && es[i] == ManifestEntry(m);
      assert i < |es| - 1 ==> Clash(es[i], es[|es| - 1]);
    } else {
      OneEachFront(es);
      FoundManifest(front, m);
    }
  }

  lemma {:induction false} FoundResults(es: seq<Entry>, rs: Option<seq<TableResult>>)
    requires OneEach(es) && ResultsEntry(rs) in es
    ensures FindResults(es) == rs
  {
    var front, last := es[..|es| - 1], es[|es| - 1];
    if last.ResultsEntry? {
      var i :| 0 <= i < |es| && es[i] == ResultsEntry(rs);
      assert i < |es| - 1 ==> Clash(es[i], es[|es| - 1]);
    } else {
      OneEachFront(es);
      FoundResults(front, rs);
    }
  }

  lemma OneEachFront(es: seq<Entry>)
    requires OneEach(es) && es != []
    ensures OneEach(es[..|es| - 1]) && es == es[..|es| - 1] + [es[|es| - 1]]
  {
    var front := es[..|es| - 1];
    forall i, j | 0 <= i < j < |front|
      ensures !Clash(front[i], front[j])
    {
      assert !Clash(es[i], es[j]);
    }
  }

  lemma {:induction false} FindersFind(es: seq<Entry>)
    ensures FindManifest(es).Some? ==> ManifestEntry(FindManifest(es)) in es
    ensures FindResults(es).Some? ==> ResultsEntry(FindResults(es)) in es
  {
    if es != [] { FindersFind(es[..|es| - 1]); }
  }

  /** What is observed under a name is what the entry of that name holds. */
  lemma {:induction false} ObservedIs(es: seq<Entry>, name: string)
    requires OneEach(es) && forall e :: e in es && e.TableEntry? ==> e.table != KV_RESULT
    ensures name in Observed(es) <==> exists e :: e in es && Under(e, name)
    ensures forall e :: e in es && Under(e, name) ==> Observed(es)[name] == LinesOf(e)
  {
    if es != [] {
      var front, last := es[..|es| - 1], es[|es| - 1];
      OneEachFront(es);
      ObservedIs(front, name);
      assert forall e :: e in es <==> e in front || e == last;
      if last.TableEntry? { CarryingCounts(last.lines); }
      if last.KvEntry? { CarryingCounts(last.kvLines); }
      forall e | e in front && Under(e, name)
        ensures !Under(last, name)
      {
        var i :| 0 <= i < |front| && front[i] == e;
        assert !Clash(es[i], es[|es| - 1]);
      }
      assert name in Observed(es) <==> name in Observed(front) || Under(last, name);
      if name in Observed(front) {
        var e :| e in front && Under(e, name);
        assert e in es;
      }
    }
  }

  // ---------------------------------------------------------------- the whole archive

  lemma EntriesAre(tables: seq<string>, es: seq<Entry>)
    ensures EntriesOk(tables, es) <==>
            && NoSecond(es) && (forall e :: e in es ==> SoundEntry(tables, e))
            && (forall e :: e in es ==> (e.ManifestEntry? ==> e.manifest.Some? && e.manifest.value.version == 1)
                                        && (e.ResultsEntry? ==> e.results.Some?))
  {
    NoSecondIs(es);
    forall e: Entry | !e.ManifestEntry? && !e.ResultsEntry?
      ensures EntryFits(tables, e) <==> SoundEntry(tables, e)
    {
      SoundEntryIs(tables, e);
    }
    assert forall i :: 0 <= i < |es| ==> es[i] in es;
  }

  lemma HoldsIs(es: seq<Entry>, name: string, n: int)
    requires OneEach(es) && forall e :: e in es && e.TableEntry? ==> e.table != KV_RESULT
    ensures n == CountOf(Observed(es), name) <==> HoldsUnder(es, name, n)
  {
    ObservedIs(es, name);
  }

  lemma ResultsAre(tables: seq<string>, es: seq<Entry>, m: Manifest, rs: seq<TableResult>)
    requires OneEach(es) && forall e :: e in es && e.TableEntry? ==> e.table != KV_RESULT
    requires m.kvSections == [] || m.kvSections == ["srcmap"]
    ensures (forall i :: 0 <= i < |rs| ==> ResultFits(tables, m, rs[i], Observed(es))) <==>
            forall r :: r in rs ==> ResultAgrees(tables, es, m, r)
  {
    hide CountOf, Observed, OneEach;
    forall r: TableResult
      ensures ResultFits(tables, m, r, Observed(es)) <==> ResultAgrees(tables, es, m, r)
    {
      HoldsIs(es, r.table, r.rows);
      HoldsCount(es, r.table, r.rows);
    }
    assert forall i :: 0 <= i < |rs| ==> rs[i] in rs;
  }

  lemma HoldsCount(es: seq<Entry>, name: string, n: int)
    ensures HoldsUnder(es, name, n) ==> n >= 0
  {
  }

  lemma NamesAre(rs: seq<TableResult>)
    ensures forall t :: t in NamesOf(rs) <==> exists r :: r in rs && r.table == t
    ensures NoRepeats(NamesOf(rs)) <==> forall i, j :: 0 <= i < j < |rs| ==> rs[i].table != rs[j].table
  {
    forall i | 0 <= i < |rs|
      ensures rs[i] in rs && NamesOf(rs)[i] == rs[i].table
    {
    }
    forall r | r in rs
      ensures r.table in NamesOf(rs)
    {
      var i :| 0 <= i < |rs| && rs[i] == r;
      assert NamesOf(rs)[i] == r.table;
    }
  }

  lemma BalanceIs(tables: seq<string>, es: seq<Entry>, m: Manifest, rs: seq<TableResult>)
    requires OneEach(es) && m.version == 1 && forall e :: e in es && e.TableEntry? ==> e.table != KV_RESULT
    ensures Balanced(tables, m, rs, Observed(es)) <==> Agreeing(tables, es, m, rs)
  {
    hide HoldsUnder, ResultFits, Observed, OneEach, NamesOf;
    SectionsAre(m);
    NamesAre(rs);
    DeclaredIs(es, m);
    if m.kvSections == [] || m.kvSections == ["srcmap"] {
      ResultsAre(tables, es, m, rs);
      assert SECTION in m.kvSections <==> m.kvSections != [];
      if forall r :: r in rs ==> ResultAgrees(tables, es, m, r) { DeclaredOnce(tables, es, m, rs); }
    }
  }

  /** With every result in order, declared is what is named a table, or the section. */
  lemma DeclaredOnce(tables: seq<string>, es: seq<Entry>, m: Manifest, rs: seq<TableResult>)
    requires forall r :: r in rs ==> ResultAgrees(tables, es, m, r)
    requires SECTION in m.kvSections <==> m.kvSections != []
    ensures (forall t :: IsDeclared(m, t) ==> exists r :: r in rs && r.table == t) <==>
            && (forall t :: t in m.tables ==> exists r :: r in rs && r.table == t)
            && (m.kvSections != [] ==> exists r :: r in rs && r.table == "kv:srcmap")
    ensures (forall t :: t in m.tables ==> exists r :: r in rs && r.table == t) ==>
            (IsDeclared(m, KV_RESULT) <==> m.kvSections != [])
  {
    if KV_RESULT in m.tables && forall t :: t in m.tables ==> exists r :: r in rs && r.table == t {
      var r :| r in rs && r.table == KV_RESULT;
    }
    assert IsDeclared(m, KV_RESULT) <==> KV_RESULT in m.tables || m.kvSections != [];
    assert forall t :: t in m.tables ==> IsDeclared(m, t);
  }

  lemma SectionsAre(m: Manifest)
    ensures NoRepeats(m.kvSections) && (forall i :: 0 <= i < |m.kvSections| ==> m.kvSections[i] == SECTION) <==>
      m.kvSections == [] || m.kvSections == ["srcmap"]
  {
    if |m.kvSections| > 1 && m.kvSections[0] == SECTION && m.kvSections[1] == SECTION {
      assert !NoRepeats(m.kvSections);
    }
  }

  lemma DeclaredIs(es: seq<Entry>, m: Manifest)
    requires OneEach(es) && forall e :: e in es && e.TableEntry? ==> e.table != KV_RESULT
    ensures (forall t :: t in Observed(es) ==> IsDeclared(m, t)) <==>
      forall e :: e in es ==> (e.TableEntry? ==> IsDeclared(m, e.table)) && (e.KvEntry? ==> IsDeclared(m, KV_RESULT))
  {
    forall t
      ensures t in Observed(es) <==> exists e :: e in es && Under(e, t)
    {
      ObservedIs(es, t);
    }
  }

  /** MAIN RESULT. What the preflight check accepts is exactly the well-made archives. */
  lemma AcceptedIsWellMade(tables: seq<string>, a: TarArchive)
    requires KV_RESULT !in tables
    ensures Accepted(tables, a) <==> a.intact && WellMade(tables, a.entries)
  {
    hide Observed, FindManifest, FindResults, OneEach, NoSecond, SoundEntry, Agreeing, Balanced;
    var es := a.entries;
    EntriesAre(tables, es);
    FindersFind(es);
    NoSecondIs(es);
    if EntriesOk(tables, es) {
      forall m, rs | ManifestEntry(Some(m)) in es && ResultsEntry(Some(rs)) in es
        ensures FindManifest(es) == Some(m) && FindResults(es) == Some(rs)
        ensures Balanced(tables, m, rs, Observed(es)) <==> Agreeing(tables, es, m, rs)
      {
        FoundManifest(es, Some(m));
        FoundResults(es, Some(rs));
        TablesOnly(tables, es);
        BalanceIs(tables, es, m, rs);
      }
    } else if WellMade(tables, es) {
      var m, rs :| ManifestEntry(Some(m)) in es && ResultsEntry(Some(rs)) in es && Agreeing(tables, es, m, rs);
      OnlyOne(es, m, rs);
      assert m.version == 1 by { AgreeingVersion(tables, es, m, rs); }
    }
  }

  lemma TablesOnly(tables: seq<string>, es: seq<Entry>)
    requires KV_RESULT !in tables && forall e :: e in es ==> SoundEntry(tables, e)
    ensures forall e :: e in es && e.TableEntry? ==> e.table != KV_RESULT
  {
  }

  lemma AgreeingVersion(tables: seq<string>, es: seq<Entry>, m: Manifest, rs: seq<TableResult>)
    requires Agreeing(tables, es, m, rs)
    ensures m.version == 1
  {
  }

  lemma OnlyOne(es: seq<Entry>, m: Manifest, rs: seq<TableResult>)
    requires NoSecond(es) && ManifestEntry(Some(m)) in es && ResultsEntry(Some(rs)) in es
    ensures forall e :: e in es ==> (e.ManifestEntry? ==> e == ManifestEntry(Some(m)))
                                    && (e.ResultsEntry? ==> e == ResultsEntry(Some(rs)))
  {
    var i :| 0 <= i < |es| && es[i] == ManifestEntry(Some(m));
    var j :| 0 <= j < |es| && es[j] == ResultsEntry(Some(rs));
  }
}
