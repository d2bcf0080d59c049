/** The preflight check of a restore: one manifest, one completion record, and a three-way
    reconciliation of what is declared, recorded and present (internal/backup/restore.go:168-379). */
module ArchiveCheck {
  import opened Common
  import opened Archive

  // ---------------------------------------------------------------- what is accepted

  ghost predicate EntryFits(tables: seq<string>, e: Entry) {
    match e
    case ManifestEntry(m) => m.Some? && m.value.version == VERSION
    case ResultsEntry(r) => r.Some?
    case KvEntry(lines) => KvLinesOk(lines)
    case TableEntry(t, lines) => t in tables && RowLines(lines)
    case OtherEntry(_) => true
  }

  /** Two entries that may not both be in an archive. */
  predicate Clash(a: Entry, b: Entry) {
    || (a.ManifestEntry? && b.ManifestEntry?) || (a.ResultsEntry? && b.ResultsEntry?) || (a.KvEntry? && b.KvEntry?)
    || (a.TableEntry? && b.TableEntry? && a.table == b.table)
  }

  ghost predicate EntriesOk(tables: seq<string>, es: seq<Entry>) {
    && (forall i :: 0 <= i < |es| ==> EntryFits(tables, es[i]))
    && OneEach(es)
  }

  ghost predicate OneEach(es: seq<Entry>) {
    forall i, j {:trigger Clash(es[i], es[j])} :: 0 <= i < j < |es| ==> !Clash(es[i], es[j])
  }

  function FindManifest(es: seq<Entry>): Option<Manifest> {
    if es == [] then None
    else if es[|es| - 1].ManifestEntry? then es[|es| - 1].manifest
    else FindManifest(es[..|es| - 1])
  }

  function FindResults(es: seq<Entry>): Option<seq<TableResult>> {
    if es == [] then None
    else if es[|es| - 1].ResultsEntry? then es[|es| - 1].results
    else FindResults(es[..|es| - 1])
  }

  /** How many rows the archive holds under each name; key-value lines count under KV_RESULT. */
  function Observed(es: seq<Entry>): map<string, nat> {
    if es == [] then map[]
    else
      var before := Observed(es[..|es| - 1]);
      match es[|es| - 1]
      case TableEntry(t, lines) => before[t := |Values(lines)|]
      case KvEntry(lines) => before[KV_RESULT := |Values(lines)|]
      case _ => before
  }

  function CountOf(observed: map<string, nat>, t: string): nat { if t in observed then observed[t] else 0 }

  function NamesOf(rs: seq<TableResult>): (names: seq<string>)
    ensures |names| == |rs| && forall i :: 0 <= i < |rs| ==> names[i] == rs[i].table
  {
    seq(|rs|, i requires 0 <= i < |rs| => rs[i].table)
  }

  predicate IsDeclared(m: Manifest, t: string) { t in m.tables || (t == KV_RESULT && SECTION in m.kvSections) }

  predicate Known(tables: seq<string>, m: Manifest, t: string) {
    if t == KV_RESULT then SECTION in m.kvSections else t in tables && t in m.tables
  }

  ghost predicate ResultFits(tables: seq<string>, m: Manifest, r: TableResult, observed: map<string, nat>) {
    r.ok && 0 <= r.rows == CountOf(observed, r.table) && Known(tables, m, r.table)
  }

  ghost predicate DeclarationOk(m: Manifest) {
    NoRepeats(m.tables) && NoRepeats(m.kvSections) && forall i :: 0 <= i < |m.kvSections| ==> m.kvSections[i] == SECTION
  }

  /** Declared, recorded and present reconcile: every declared name has exactly one result, every
      result says exactly what is there, and nothing undeclared is there. */
  ghost predicate Balanced(tables: seq<string>, m: Manifest, rs: seq<TableResult>, observed: map<string, nat>) {
    && DeclarationOk(m) && NoRepeats(NamesOf(rs))
    && (forall i :: 0 <= i < |rs| ==> ResultFits(tables, m, rs[i], observed))
    && (forall t :: IsDeclared(m, t) ==> t in NamesOf(rs))
    && (forall t :: t in observed ==> IsDeclared(m, t))
  }

  ghost predicate Accepted(tables: seq<string>, a: TarArchive) {
    && a.intact && EntriesOk(tables, a.entries)
    && FindManifest(a.entries).Some? && FindResults(a.entries).Some?
    && Balanced(tables, FindManifest(a.entries).value, FindResults(a.entries).value, Observed(a.entries))
  }

  // ---------------------------------------------------------------- the walk over the entries

  datatype Survey = Survey(manifest: Option<Manifest>, results: Option<seq<TableResult>>,
                           observed: map<string, nat>, kvObserved: Option<nat>)

  function WithKv(s: Survey): map<string, nat> {
    if s.kvObserved.Some? then s.observed[KV_RESULT := s.kvObserved.value] else s.observed
  }

  /** What the walk knows after some entries. */
  ghost predicate Seen(tables: seq<string>, es: seq<Entry>, s: Survey) {
    && EntriesOk(tables, es)
    && s.manifest == FindManifest(es) && s.results == FindResults(es) && WithKv(s) == Observed(es)
    && s.observed.Keys <= SetOf(tables)
    && (s.manifest.Some? <==> exists i :: 0 <= i < |es| && es[i].ManifestEntry?)
    && (s.results.Some? <==> exists i :: 0 <= i < |es| && es[i].ResultsEntry?)
    && (s.kvObserved.Some? <==> exists i :: 0 <= i < |es| && es[i].KvEntry?)
    && (forall t :: t in s.observed <==> exists i :: 0 <= i < |es| && IsTable(es[i], t))
  }

  predicate IsTable(e: Entry, t: string) { e.TableEntry? && e.table == t }

  /** A second manifest, completion record, key-value entry or entry for a table. */
  predicate Repeated(s: Survey, e: Entry) {
    match e
    case ManifestEntry(_) => s.manifest.Some?
    case ResultsEntry(_) => s.results.Some?
    case KvEntry(_) => s.kvObserved.Some?
    case TableEntry(t, _) => t in s.observed
    case OtherEntry(_) => false
  }

  lemma Spoiled(tables: seq<string>, es: seq<Entry>, i: nat, s: Survey)
    requires i < |es| && Seen(tables, es[..i], s)
    ensures Repeated(s, es[i]) || !EntryFits(tables, es[i]) ==> !EntriesOk(tables, es)
  {
    if Repeated(s, es[i]) {
      ghost var j := Earlier(tables, es[..i], s, es[i]);
      assert Clash(es[j], es[i]);
    }
  }

  lemma Earlier(tables: seq<string>, es: seq<Entry>, s: Survey, e: Entry) returns (j: nat)
    requires Seen(tables, es, s) && Repeated(s, e)
    ensures j < |es| && Clash(es[j], e)
  {
    match e
    case ManifestEntry(_) => j :| j < |es| && es[j].ManifestEntry?;
    case ResultsEntry(_) => j :| j < |es| && es[j].ResultsEntry?;
    case KvEntry(_) => j :| j < |es| && es[j].KvEntry?;
    case TableEntry(t, _) => j :| j < |es| && IsTable(es[j], t);
  }

  function Noted(s: Survey, e: Entry): Survey {
    match e
    case ManifestEntry(m) => s.(manifest := m)
    case ResultsEntry(r) => s.(results := r)
    case KvEntry(lines) => s.(kvObserved := Some(|Values(lines)|))
    case TableEntry(t, lines) => s.(observed := s.observed[t := |Values(lines)|])
    case OtherEntry(_) => s
  }

  lemma NotedSeen(tables: seq<string>, es: seq<Entry>, s: Survey, e: Entry)
    requires KV_RESULT !in tables && Seen(tables, es, s) && !Repeated(s, e) && EntryFits(tables, e)
    ensures Seen(tables, es + [e], Noted(s, e))
  {
    var longer := es + [e];
    assert longer[..|es|] == es;
    NoClashYet(tables, es, s, e);
    assert WithKv(Noted(s, e)) == Observed(longer);
    forall t
      ensures t in Noted(s, e).observed <==> exists i :: 0 <= i < |longer| && IsTable(longer[i], t)
    {
      if t in s.observed {
        var i :| 0 <= i < |es| && IsTable(es[i], t);
        assert IsTable(longer[i], t);
      }
      if e.TableEntry? && e.table == t { assert IsTable(longer[|es|], t); }
    }
    PresenceGrows(es, e);
  }

  lemma NoClashYet(tables: seq<string>, es: seq<Entry>, s: Survey, e: Entry)
    requires Seen(tables, es, s) && !Repeated(s, e) && EntryFits(tables, e)
    ensures EntriesOk(tables, es + [e])
  {
    forall i | 0 <= i < |es|
      ensures !Clash(es[i], e)
    {
      match e
      case TableEntry(t, _) => assert !IsTable(es[i], t);
      case _ =>
    }
  }

  lemma PresenceGrows(es: seq<Entry>, e: Entry)
    ensures (exists i :: 0 <= i < |es + [e]| && (es + [e])[i].ManifestEntry?) <==>
      e.ManifestEntry? || exists i :: 0 <= i < |es| && es[i].ManifestEntry?
    ensures (exists i :: 0 <= i < |es + [e]| && (es + [e])[i].ResultsEntry?) <==>
      e.ResultsEntry? || exists i :: 0 <= i < |es| && es[i].ResultsEntry?
    ensures (exists i :: 0 <= i < |es + [e]| && (es + [e])[i].KvEntry?) <==>
      e.KvEntry? || exists i :: 0 <= i < |es| && es[i].KvEntry?
  {
    var longer := es + [e];
    assert longer[|es|] == e;
    assert forall i :: 0 <= i < |es| ==> longer[i] == es[i];
  }

  lemma WalkStep(tables: seq<string>, es: seq<Entry>, i: nat, s: Survey)
    requires KV_RESULT !in tables && i < |es| && Seen(tables, es[..i], s)
    ensures if Repeated(s, es[i]) || !EntryFits(tables, es[i]) then !EntriesOk(tables, es)
            else Seen(tables, es[..i + 1], Noted(s, es[i]))
  {
    Spoiled(tables, es, i, s);
    assert es[..i + 1] == es[..i] + [es[i]];
    if !Repeated(s, es[i]) && EntryFits(tables, es[i]) { NotedSeen(tables, es[..i], s, es[i]); }
  }

  /** One entry of the walk: its own shape, and whether it is a repetition. */
  method CheckEntry(tables: seq<string>, e: Entry, s: Survey) returns (r: Result<Survey, Why>)
    ensures r.Ok? <==> !Repeated(s, e) && EntryFits(tables, e)
    ensures r.Ok? ==> r.value == Noted(s, e)
  {
    match e
    case ManifestEntry(m) =>
      if s.manifest.Some? { return Err(SecondManifest); }
      if m.None? { return Err(ManifestUnreadable); }
      if m.value.version != VERSION { return Err(WrongVersion); }
      r := Ok(s.(manifest := m));
    case ResultsEntry(results) =>
      if s.results.Some? { return Err(SecondResults); }
      if results.None? { return Err(ResultsUnreadable); }
      r := Ok(s.(results := results));
    case KvEntry(lines) =>
      if s.kvObserved.Some? { return Err(SecondKvEntry); }
      var n := ValidateKvRows(lines);
      if n.Err? { return Err(n.error); }
      r := Ok(s.(kvObserved := Some(n.value)));
    case TableEntry(t, lines) =>
      if t !in tables { return Err(UnknownTable); }
      if t in s.observed { return Err(SecondTableEntry); }
      var n := ValidateTableRows(lines);
      if n.Err? { return Err(n.error); }
      r := Ok(s.(observed := s.observed[t := n.value]));
    case OtherEntry(_) =>
      r := Ok(s);
  }

  method WalkEntries(tables: seq<string>, a: TarArchive) returns (r: Result<Survey, Why>)
    requires KV_RESULT !in tables
    ensures r.Ok? <==> a.intact && EntriesOk(tables, a.entries)
    ensures r.Ok? ==> Seen(tables, a.entries, r.value)
  {
    var s := Survey(None, None, map[], None);
    for i := 0 to |a.entries|
      invariant Seen(tables, a.entries[..i], s)
    {
      WalkStep(tables, a.entries, i, s);
      var next := CheckEntry(tables, a.entries[i], s);
      if next.Err? { return Err(next.error); }
      s := next.value;
    }
    assert a.entries[..|a.entries|] == a.entries;
    if !a.intact { return Err(TarBroken); }
    r := Ok(s);
  }
}
