/** The reconciling half of the preflight check (internal/backup/restore.go:253-379). */
module ArchiveReconcile {
  import opened Common
  import opened Archive
  import opened ArchiveCheck
  import opened ArchiveShape

  // ---------------------------------------------------------------- declared names

  /** The manifest's declarations: no name twice, and only the section that exists. */
  method CheckDeclarations(m: Manifest) returns (why: Option<Why>)
    ensures why.None? <==> DeclarationOk(m)
  {
    var declared: set<string> := {};
    for i := 0 to |m.tables|
      invariant declared == SetOf(m.tables[..i]) && NoRepeats(m.tables[..i])
    {
      NewKey(m.tables[..i], m.tables[i]);
      assert m.tables[..i + 1] == m.tables[..i] + [m.tables[i]];
      if m.tables[i] in declared { RepeatFound(m.tables, i); return Some(DeclaredTwice); }
      declared := declared + {m.tables[i]};
    }
    assert m.tables[..|m.tables|] == m.tables;
    var kvDeclared: set<string> := {};
    for i := 0 to |m.kvSections|
      invariant kvDeclared == SetOf(m.kvSections[..i]) && NoRepeats(m.kvSections[..i])
      invariant forall j :: 0 <= j < i ==> m.kvSections[j] == SECTION
    {
      NewKey(m.kvSections[..i], m.kvSections[i]);
      assert m.kvSections[..i + 1] == m.kvSections[..i] + [m.kvSections[i]];
      if m.kvSections[i] in kvDeclared { RepeatFound(m.kvSections, i); return Some(SectionTwice); }
      if m.kvSections[i] != SECTION { return Some(UnknownSection); }
      kvDeclared := kvDeclared + {m.kvSections[i]};
    }
    assert m.kvSections[..|m.kvSections|] == m.kvSections;
    why := None;
  }

  lemma RepeatFound(s: seq<string>, i: nat)
    requires i < |s| && s[i] in SetOf(s[..i])
    ensures !NoRepeats(s)
  {
    var j :| 0 <= j < i && s[..i][j] == s[i];
    assert s[j] == s[i];
  }

  // ---------------------------------------------------------------- the completion record

  predicate ResultSound(tables: seq<string>, m: Manifest, r: TableResult) {
    Known(tables, m, r.table) && r.rows >= 0
  }

  ghost predicate RecordSound(tables: seq<string>, m: Manifest, rs: seq<TableResult>) {
    NoRepeats(NamesOf(rs)) && forall i :: 0 <= i < |rs| ==> ResultSound(tables, m, rs[i]) && rs[i].ok
  }

  ghost predicate ByTable(rs: seq<TableResult>, byTable: map<string, nat>) {
    byTable.Keys == SetOf(NamesOf(rs)) && forall i :: 0 <= i < |rs| ==> byTable[rs[i].table] == rs[i].rows
  }

  /** The first i results are sound, name different tables, and are in `byTable`. */
  ghost predicate Indexed(tables: seq<string>, m: Manifest, rs: seq<TableResult>, i: nat, byTable: map<string, nat>) {
    && i <= |rs| && NoRepeats(NamesOf(rs)[..i]) && byTable.Keys == SetOf(NamesOf(rs)[..i])
    && forall j :: 0 <= j < i ==>
         ResultSound(tables, m, rs[j]) && rs[j].table in byTable && byTable[rs[j].table] == rs[j].rows
  }

  lemma IndexedStep(tables: seq<string>, m: Manifest, rs: seq<TableResult>, i: nat, byTable: map<string, nat>)
    requires i < |rs| && Indexed(tables, m, rs, i, byTable) && ResultSound(tables, m, rs[i]) && rs[i].table !in byTable
    ensures Indexed(tables, m, rs, i + 1, byTable[rs[i].table := rs[i].rows])
  {
    var names := NamesOf(rs);
    NewKey(names[..i], rs[i].table);
    assert names[..i + 1] == names[..i] + [rs[i].table];
  }

  /** One result: a known, declared name and a count. */
  method CheckResult(tables: seq<string>, m: Manifest, x: TableResult) returns (why: Option<Why>)
    requires KV_RESULT !in tables
    ensures why.None? <==> ResultSound(tables, m, x)
  {
    var isKv := x.table == KV_RESULT;
    if x.table !in tables && !isKv { return Some(ResultUnknown); }
    if isKv {
      if SECTION !in m.kvSections { return Some(ResultUndeclared); }
    } else if x.table !in m.tables {
      return Some(ResultUndeclared);
    }
    why := if x.rows < 0 then Some(NegativeRows) else None;
  }

  /** The results by name. Failures are only reported once the whole record is sound. */
  method CheckResults(tables: seq<string>, m: Manifest, rs: seq<TableResult>) returns (r: Result<map<string, nat>, Why>)
    requires KV_RESULT !in tables
    ensures r.Ok? <==> RecordSound(tables, m, rs)
    ensures r.Ok? ==> ByTable(rs, r.value)
  {
    var byTable, failed := IndexResults(tables, m, rs);
    if byTable.Err? { return byTable; }
    if failed { return Err(Partial); }
    assert NamesOf(rs)[..|rs|] == NamesOf(rs);
    r := byTable;
  }

  ghost predicate AllDumped(rs: seq<TableResult>, n: nat)
    requires n <= |rs|
  {
    forall j :: 0 <= j < n ==> rs[j].ok
  }

  method IndexResults(tables: seq<string>, m: Manifest, rs: seq<TableResult>)
      returns (r: Result<map<string, nat>, Why>, failed: bool)
    requires KV_RESULT !in tables
    ensures r.Ok? ==> Indexed(tables, m, rs, |rs|, r.value) && (failed <==> !AllDumped(rs, |rs|))
    ensures r.Err? ==> !RecordSound(tables, m, rs)
  {
    var byTable: map<string, nat> := map[];
    failed := false;
    for i := 0 to |rs|
      invariant Indexed(tables, m, rs, i, byTable)
      invariant failed <==> !AllDumped(rs, i)
    {
      var x := rs[i];
      var why := CheckResult(tables, m, x);
      if why.Some? { return Err(why.value), failed; }
      if x.table in byTable { RepeatFound(NamesOf(rs), i); return Err(ResultTwice), failed; }
      if !x.ok { failed := true; }
      IndexedStep(tables, m, rs, i, byTable);
      byTable := byTable[x.table := x.rows];
    }
    r := Ok(byTable);
  }

  // ---------------------------------------------------------------- the reconciliation

  /** Every declared table has a result. */
  method CheckCoverage(m: Manifest, byTable: map<string, nat>) returns (why: Option<Why>)
    ensures why.None? <==> forall t :: t in m.tables ==> t in byTable
  {
    for i := 0 to |m.tables|
      invariant forall j :: 0 <= j < i ==> m.tables[j] in byTable
    {
      if m.tables[i] !in byTable { return Some(NoResultFor); }
    }
    why := None;
  }

  ghost predicate TablesReconcile(m: Manifest, byTable: map<string, nat>, observed: map<string, nat>) {
    && (forall t :: t in observed ==> t in m.tables && t in byTable && observed[t] == byTable[t])
    && (forall t :: t in byTable && t != KV_RESULT && byTable[t] > 0 ==> t in observed)
  }

  /** Every table entry is declared and as long as its result says; every result with rows has
      its entry. */
  method CheckCounts(m: Manifest, byTable: map<string, nat>, observed: map<string, nat>) returns (why: Option<Why>)
    ensures why.None? <==> TablesReconcile(m, byTable, observed)
  {
    var rest := observed.Keys;
    while rest != {}
      invariant rest <= observed.Keys
      invariant forall t :: t in observed && t !in rest ==> t in m.tables && t in byTable && observed[t] == byTable[t]
      decreases |rest|
    {
      var t :| t in rest;
      if t !in m.tables { return Some(EntryUndeclared); }
      if t !in byTable { return Some(NoResultFor); }
      if observed[t] != byTable[t] { return Some(CountMismatch); }
      rest := rest - {t};
    }
    rest := byTable.Keys;
    while rest != {}
      invariant rest <= byTable.Keys
      invariant forall t :: t in byTable && t !in rest && t != KV_RESULT && byTable[t] > 0 ==> t in observed
      decreases |rest|
    {
      var t :| t in rest;
      if t != KV_RESULT && byTable[t] > 0 && t !in observed { return Some(EntryMissing); }
      rest := rest - {t};
    }
    why := None;
  }

  ghost predicate KvReconciles(m: Manifest, byTable: map<string, nat>, kvObserved: Option<nat>) {
    if SECTION in m.kvSections
    then KV_RESULT in byTable && byTable[KV_RESULT] == (if kvObserved.Some? then kvObserved.value else 0)
    else kvObserved.None?
  }

  method CheckKv(m: Manifest, byTable: map<string, nat>, kvObserved: Option<nat>) returns (why: Option<Why>)
    ensures why.None? <==> KvReconciles(m, byTable, kvObserved)
  {
    if SECTION in m.kvSections {
      if KV_RESULT !in byTable { return Some(NoResultFor); }
      if kvObserved.Some? {
        if kvObserved.value != byTable[KV_RESULT] { return Some(CountMismatch); }
      } else if byTable[KV_RESULT] > 0 {
        return Some(EntryMissing);
      }
    }
    if kvObserved.Some? && SECTION !in m.kvSections { return Some(EntryUndeclared); }
    why := None;
  }

  lemma ResultAt(rs: seq<TableResult>, byTable: map<string, nat>, t: string) returns (i: nat)
    requires ByTable(rs, byTable) && t in byTable
    ensures i < |rs| && rs[i].table == t && byTable[t] == rs[i].rows
  {
    assert t in NamesOf(rs);
    i :| i < |rs| && NamesOf(rs)[i] == t;
  }

  /** The separate checks amount to the balance of the three records. */
  lemma ChecksBalance(tables: seq<string>, es: seq<Entry>, s: Survey, byTable: map<string, nat>)
    requires KV_RESULT !in tables && Seen(tables, es, s) && s.manifest.Some? && s.results.Some?
    requires DeclarationOk(s.manifest.value) && ByTable(s.results.value, byTable)
    requires RecordSound(tables, s.manifest.value, s.results.value)
    ensures Balanced(tables, s.manifest.value, s.results.value, Observed(es)) <==>
      && (forall t :: t in s.manifest.value.tables ==> t in byTable)
      && TablesReconcile(s.manifest.value, byTable, s.observed)
      && KvReconciles(s.manifest.value, byTable, s.kvObserved)
  {
    var m, rs, observed := s.manifest.value, s.results.value, Observed(es);
    if Balanced(tables, m, rs, observed) {
      BalancedChecks(tables, es, s, byTable);
    } else if (forall t :: t in m.tables ==> t in byTable)
              && TablesReconcile(m, byTable, s.observed) && KvReconciles(m, byTable, s.kvObserved) {
      CheckedBalances(tables, es, s, byTable);
    }
  }

  lemma BalancedChecks(tables: seq<string>, es: seq<Entry>, s: Survey, byTable: map<string, nat>)
    requires KV_RESULT !in tables && Seen(tables, es, s) && s.manifest.Some? && s.results.Some?
    requires ByTable(s.results.value, byTable) && Balanced(tables, s.manifest.value, s.results.value, Observed(es))
    ensures forall t :: t in s.manifest.value.tables ==> t in byTable
    ensures TablesReconcile(s.manifest.value, byTable, s.observed)
    ensures KvReconciles(s.manifest.value, byTable, s.kvObserved)
  {
    var m, rs, observed := s.manifest.value, s.results.value, Observed(es);
    forall t | IsDeclared(m, t)
      ensures t in byTable
    {
      assert t in NamesOf(rs);
    }
    forall t | t in byTable
      ensures byTable[t] == CountOf(observed, t) && Known(tables, m, t)
    {
      var i := ResultAt(rs, byTable, t);
      assert ResultFits(tables, m, rs[i], observed);
    }
    forall t | t in s.observed
      ensures t in m.tables
    {
      assert t in observed && t in tables;
      assert IsDeclared(m, t);
    }
    if s.kvObserved.Some? { assert IsDeclared(m, KV_RESULT); }
  }

  lemma CheckedBalances(tables: seq<string>, es: seq<Entry>, s: Survey, byTable: map<string, nat>)
    requires KV_RESULT !in tables && Seen(tables, es, s) && s.manifest.Some? && s.results.Some?
    requires DeclarationOk(s.manifest.value) && ByTable(s.results.value, byTable)
    requires RecordSound(tables, s.manifest.value, s.results.value)
    requires forall t :: t in s.manifest.value.tables ==> t in byTable
    requires TablesReconcile(s.manifest.value, byTable, s.observed)
    requires KvReconciles(s.manifest.value, byTable, s.kvObserved)
    ensures Balanced(tables, s.manifest.value, s.results.value, Observed(es))
  {
    var m, rs, observed := s.manifest.value, s.results.value, Observed(es);
    forall i | 0 <= i < |rs|
      ensures ResultFits(tables, m, rs[i], observed)
    {
      assert ResultSound(tables, m, rs[i]) && rs[i].table in NamesOf(rs);
      assert byTable[rs[i].table] == rs[i].rows;
    }
    forall t | IsDeclared(m, t)
      ensures t in NamesOf(rs)
    {
      assert t in byTable;
    }
  }

  /** validateArchive. MAIN RESULT: it lets through exactly the well-made archives. */
  method ValidateArchive(tables: seq<string>, a: TarArchive) returns (r: Result<Manifest, Why>)
    requires KV_RESULT !in tables
    ensures r.Ok? <==> Accepted(tables, a)
    ensures r.Ok? ==> Some(r.value) == FindManifest(a.entries)
    ensures r.Ok? <==> a.intact && WellMade(tables, a.entries)
    ensures r.Ok? ==> ManifestEntry(Some(r.value)) in a.entries
  {
    hide WellMade;
    AcceptedIsWellMade(tables, a);
    FindersFind(a.entries);
    var walked := WalkEntries(tables, a);
    if walked.Err? { return Err(walked.error); }
    var s := walked.value;
    if s.manifest.None? { return Err(NoManifest); }
    if s.results.None? { return Err(NoResults); }
    var m, rs := s.manifest.value, s.results.value;
    var why := CheckDeclarations(m);
    if why.Some? { return Err(why.value); }
    var byTable := CheckResults(tables, m, rs);
    if byTable.Err? {
      NotBalanced(tables, m, rs, Observed(a.entries));
      return Err(byTable.error);
    }
    ChecksBalance(tables, a.entries, s, byTable.value);
    why := CheckCoverage(m, byTable.value);
    if why.Some? { return Err(why.value); }
    why := CheckCounts(m, byTable.value, s.observed);
    if why.Some? { return Err(why.value); }
    why := CheckKv(m, byTable.value, s.kvObserved);
    if why.Some? { return Err(why.value); }
    r := Ok(m);
  }

  lemma NotBalanced(tables: seq<string>, m: Manifest, rs: seq<TableResult>, observed: map<string, nat>)
    ensures Balanced(tables, m, rs, observed) ==> RecordSound(tables, m, rs)
  {
    if Balanced(tables, m, rs, observed) {
      forall i | 0 <= i < |rs|
        ensures ResultSound(tables, m, rs[i]) && rs[i].ok
      {
        assert ResultFits(tables, m, rs[i], observed);
      }
    }
  }
}
